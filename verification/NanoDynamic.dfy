/** nanoflann's dynamic adaptor: a binary counter of static indices, with lazy removal. */
module NanoDynamic {
  import opened KNearest
  import opened NanoResultSet
  import opened NanoBuild
  import opened NanoSearch

  // ---------- the binary counter ----------

  function Pow2(i: nat): nat { if i == 0 then 1 else 2 * Pow2(i - 1) }

  predicate Bit(n: nat, i: nat) { if i == 0 then n % 2 == 1 else Bit(n / 2, i - 1) }

  /** How many indices tree i of n points holds. */
  function TreeSize(n: nat, i: nat): nat { if Bit(n, i) then Pow2(i) else 0 }

  function Shift(n: nat, i: nat): nat { if i == 0 then n else Shift(n / 2, i - 1) }

  lemma {:induction false} ShiftNext(n: nat, i: nat)
    ensures Shift(n, i + 1) == Shift(n, i) / 2 && (Bit(n, i) <==> Shift(n, i) % 2 == 1)
  {
    if i > 0 { ShiftNext(n / 2, i - 1); }
  }

  /** The position of the lowest bit that is not set. */
  method First0Bit(num: nat) returns (pos: nat)
    ensures !Bit(num, pos) && forall i :: 0 <= i < pos ==> Bit(num, i)
  {
    pos := 0;
    var n := num;
    while n % 2 == 1
      invariant n == Shift(num, pos) && forall i :: 0 <= i < pos ==> Bit(num, i)
      decreases n
    {
      ShiftNext(num, pos);
      n := n / 2;
      pos := pos + 1;
    }
    ShiftNext(num, pos);
  }

  /** Counting up clears the bits below the lowest clear one and sets that one. */
  lemma {:induction false} Carry(n: nat, pos: nat, i: nat)
    requires !Bit(n, pos) && forall j :: 0 <= j < pos ==> Bit(n, j)
    ensures Bit(n + 1, i) == if i < pos then false else if i == pos then true else Bit(n, i)
    decreases pos
  {
    if pos == 0 {
      assert (n + 1) / 2 == n / 2;
    } else {
      assert Bit(n, 0);
      assert (n + 1) / 2 == n / 2 + 1;
      forall j | 0 <= j < pos - 1 ensures Bit(n / 2, j) { assert Bit(n, j + 1); }
      if i > 0 { Carry(n / 2, pos - 1, i - 1); }
    }
  }

  lemma {:induction false} AllOnes(n: nat, k: nat)
    requires forall j :: 0 <= j < k ==> Bit(n, j)
    ensures n + 1 >= Pow2(k)
  {
    if k > 0 {
      assert Bit(n, 0);
      forall j | 0 <= j < k - 1 ensures Bit(n / 2, j) { assert Bit(n, j + 1); }
      AllOnes(n / 2, k - 1);
    }
  }

  lemma {:induction false} NoBits(i: nat)
    ensures !Bit(0, i)
  {
    if i > 0 { NoBits(i - 1); }
  }

  // ---------- what the trees hold together ----------

  ghost function AllOf(index: seq<Container>, k: nat): multiset<nat>
    requires k <= |index|
  {
    if k == 0 then multiset{} else AllOf(index, k - 1) + multiset(index[k - 1].vind)
  }

  lemma {:induction false} AllOfEmpty(a: seq<Container>, k: nat)
    requires k <= |a| && forall i :: 0 <= i < k ==> a[i].vind == []
    ensures AllOf(a, k) == multiset{}
  {
    if k > 0 { AllOfEmpty(a, k - 1); }
  }

  /** Merging the trees below pos into tree pos, with one more index. */
  lemma {:induction false} AllOfMerged(a: seq<Container>, b: seq<Container>, pos: nat, k: nat, idx: nat)
    requires pos < k <= |a| == |b| && a[pos].vind == []
    requires forall i :: 0 <= i < pos ==> b[i].vind == []
    requires forall i :: pos < i < k ==> b[i].vind == a[i].vind
    requires multiset(b[pos].vind) == AllOf(a, pos) + multiset{idx}
    ensures AllOf(b, k) == AllOf(a, k) + multiset{idx}
  {
    if k == pos + 1 {
      AllOfEmpty(b, pos);
    } else {
      AllOfMerged(a, b, pos, k - 1, idx);
    }
  }

  lemma {:induction false} AllOfHas(index: seq<Container>, k: nat, i: nat, j: nat)
    requires i < k <= |index| && j < |index[i].vind|
    ensures index[i].vind[j] in AllOf(index, k)
  {
    if i < k - 1 { AllOfHas(index, k - 1, i, j); } else { assert index[i].vind[j] in multiset(index[i].vind); }
  }

  /** Every point index is in the tree that treeIndex names, unless it is removed. */
  predicate Named(treeIndex: seq<int>, v: seq<nat>, i: int) {
    forall j :: 0 <= j < |v| ==> v[j] < |treeIndex| && (treeIndex[v[j]] == -1 || treeIndex[v[j]] == i)
  }

  ghost predicate Counter(pts: seq<Row>, dim: nat, leafMax: nat, index: seq<Container>, treeIndex: seq<int>, n: nat) {
    && DataOk(pts, dim) && leafMax >= 1 && n <= |treeIndex| <= |pts| && n < Pow2(|index|)
    && (forall i :: 0 <= i < |index| ==>
       Indexed(pts, dim, index[i], leafMax) && |index[i].vind| == TreeSize(n, i) && Named(treeIndex, index[i].vind, i))
    && AllOf(index, |index|) == multiset(Range(n))
  }

  ghost predicate OnlyIn(index: seq<Container>, treeIndex: seq<int>, x: nat, i: nat)
    requires i < |index| && x < |treeIndex|
  {
    && x in index[i].vind && (treeIndex[x] == -1 || treeIndex[x] == i)
    && (forall k :: 0 <= k < |index| && x in index[k].vind ==> k == i)
  }

  /** Each of the n points added lies in exactly one of the trees, and it is the one treeIndex names. */
  lemma InOneTree(pts: seq<Row>, dim: nat, leafMax: nat, index: seq<Container>, treeIndex: seq<int>, n: nat, x: nat)
    requires Counter(pts, dim, leafMax, index, treeIndex, n) && x < n
    ensures exists i :: 0 <= i < |index| && OnlyIn(index, treeIndex, x, i)
  {
    RangeOnce(n, x);
    InSome(index, |index|, x);
    var i :| 0 <= i < |index| && x in index[i].vind;
    var j :| 0 <= j < |index[i].vind| && index[i].vind[j] == x;
    assert Named(treeIndex, index[i].vind, i);
    forall k | 0 <= k < |index| && x in index[k].vind ensures k == i {
      if k < i { InTwo(index, |index|, k, i, x); } else if i < k { InTwo(index, |index|, i, k, x); }
    }
    assert OnlyIn(index, treeIndex, x, i);
  }

  lemma {:induction false} InSome(index: seq<Container>, k: nat, x: nat)
    requires k <= |index| && x in AllOf(index, k)
    ensures exists i :: 0 <= i < k && x in index[i].vind
  {
    if x in AllOf(index, k - 1) { InSome(index, k - 1, x); } else { assert x in multiset(index[k - 1].vind); }
  }

  lemma {:induction false} InTwo(index: seq<Container>, k: nat, i: nat, j: nat, x: nat)
    requires i < j < k <= |index| && x in index[i].vind && x in index[j].vind
    ensures AllOf(index, k)[x] >= 2
  {
    if j < k - 1 {
      InTwo(index, k - 1, i, j, x);
    } else {
      var a :| 0 <= a < |index[i].vind| && index[i].vind[a] == x;
      AllOfHas(index, k - 1, i, a);
      assert x in multiset(index[j].vind);
    }
  }

  // ---------- merging the trees below the new one ----------

  /** What an update of treeIndex may do while tree i is moved into tree pos. */
  ghost predicate Moved(a: seq<int>, b: seq<int>, i: int, pos: int) {
    |a| == |b| && forall x :: 0 <= x < |a| ==> b[x] == a[x] || (a[x] == i && b[x] == pos)
  }

  lemma NamedElsewhere(a: seq<int>, b: seq<int>, i: int, pos: int, v: seq<nat>, k: int)
    requires Moved(a, b, i, pos) && Named(a, v, k) && k != i && i != -1
    ensures Named(b, v, k)
  {
    forall j | 0 <= j < |v| ensures v[j] < |b| && (b[v[j]] == -1 || b[v[j]] == k) { assert v[j] < |a|; }
  }

  lemma NamedPermute(t: seq<int>, v: seq<nat>, w: seq<nat>, k: int)
    requires Named(t, v, k) && multiset(v) == multiset(w)
    ensures Named(t, w, k)
  {
    forall j | 0 <= j < |w| ensures w[j] < |t| && (t[w[j]] == -1 || t[w[j]] == k) {
      assert w[j] in multiset(v);
      var i :| 0 <= i < |v| && v[i] == w[j];
    }
  }

  /** Removal marks are untouched. */
  ghost predicate SameRemoved(a: seq<int>, b: seq<int>, n: nat) {
    n <= |a| && |a| == |b| && forall x :: 0 <= x < n ==> (a[x] == -1 <==> b[x] == -1)
  }

  /** The state of the merge after the first i trees: they are empty, tree pos has their indices. */
  ghost predicate Merging(pts: seq<Row>, dim: nat, leafMax: nat, was: seq<Container>, index: seq<Container>,
                          t: seq<int>, pos: nat, i: nat) {
    && i <= pos < |index| == |was|
    && (forall k :: 0 <= k < i ==> index[k].vind == [] && index[k].root_node.NULL?)
    && (forall k :: i <= k < |index| && k != pos ==> index[k] == was[k])
    && (forall k :: 0 <= k < |index| ==> Named(t, index[k].vind, k))
    && Valid(pts, dim, index[pos].vind, 0) && multiset(index[pos].vind) == AllOf(was, i)
    && |index[pos].vind| + 1 == Pow2(i)
  }

  lemma MergeStart(pts: seq<Row>, dim: nat, leafMax: nat, was: seq<Container>, t: seq<int>, n: nat, pos: nat)
    requires Counter(pts, dim, leafMax, was, t, n) && pos < |was| && !Bit(n, pos) && n < |t|
    ensures was[pos].vind == [] && Merging(pts, dim, leafMax, was, was, t[n := pos], pos, 0)
  {
    forall k | 0 <= k < |was| ensures Named(t[n := pos], was[k].vind, k) {
      assert Named(t, was[k].vind, k);
      forall j | 0 <= j < |was[k].vind| ensures was[k].vind[j] < n {
        AllOfHas(was, |was|, k, j);
        RangeOnce(n, was[k].vind[j]);
      }
    }
  }

  lemma MergeStep(pts: seq<Row>, dim: nat, leafMax: nat, was: seq<Container>, index: seq<Container>, t: seq<int>,
                  n: nat, pos: nat, i: nat,
                  next: seq<Container>, u: seq<int>)
    requires Merging(pts, dim, leafMax, was, index, t, pos, i) && i < pos && Bit(n, i)
    requires |was[i].vind| == TreeSize(n, i) && Valid(pts, dim, was[i].vind, 0)
    requires Moved(t, u, i, pos) && |next| == |index| && next[i].vind == [] && next[i].root_node.NULL?
    requires next[pos].vind == index[pos].vind + index[i].vind && Named(u, next[pos].vind, pos)
    requires forall k :: 0 <= k < |index| && k != i && k != pos ==> next[k] == index[k]
    ensures Merging(pts, dim, leafMax, was, next, u, pos, i + 1)
  {
    forall k | 0 <= k < |next| ensures Named(u, next[k].vind, k) {
      if k != i && k != pos { NamedElsewhere(t, u, i, pos, index[k].vind, k); }
    }
    assert multiset(next[pos].vind) == AllOf(was, i) + multiset(was[i].vind);
  }

  /** The state after the merge: tree pos is built anew with one more index. */
  ghost predicate Merged(pts: seq<Row>, dim: nat, leafMax: nat, was: seq<Container>, t: seq<int>, n: nat, pos: nat,
                         idx: nat,
                         index: seq<Container>, next: seq<Container>) {
    && n < |t| <= |pts| && n + 1 < Pow2(|was|) && (t[n] == -1 || t[n] == pos)
    && pos < |was| && !Bit(n, pos) && (forall i :: 0 <= i < pos ==> Bit(n, i)) && was[pos].vind == []
    && Merging(pts, dim, leafMax, was, index, t, pos, pos)
    && |next| == |index| && (forall k :: 0 <= k < |index| && k != pos ==> next[k] == index[k])
    && Indexed(pts, dim, next[pos], leafMax) && multiset(next[pos].vind) == multiset(index[pos].vind + [idx])
  }

  /** Adding an index completes the merge: the trees hold it besides the old ones. Exactly if it is the
      next one, the counter has counted one up. */
  lemma MergeDone(pts: seq<Row>, dim: nat, leafMax: nat, was: seq<Container>, t0: seq<int>, t: seq<int>, n: nat,
                  pos: nat, idx: nat,
                  index: seq<Container>, next: seq<Container>)
    requires Counter(pts, dim, leafMax, was, t0, n) && |t| == |t0|
    requires Merged(pts, dim, leafMax, was, t, n, pos, idx, index, next)
    ensures AllOf(next, |next|) == multiset(Range(n)) + multiset{idx}
    ensures Counter(pts, dim, leafMax, next, t, n + 1) <==> idx == n
  {
    MergedAll(pts, dim, leafMax, was, t0, t, n, pos, idx, index, next);
    hide Merged, AllOf, Range, Indexed, Named, Pow2, TreeSize;
    if idx != n {
      RangeNext(n);
      RangeOnce(n, n);
      assert (multiset(Range(n)) + multiset{idx})[n] == 0;
    } else {
      MergedNext(pts, dim, leafMax, was, t0, t, n, pos, index, next);
    }
  }

  lemma MergedAll(pts: seq<Row>, dim: nat, leafMax: nat, was: seq<Container>, t0: seq<int>, t: seq<int>, n: nat,
                  pos: nat, idx: nat,
                  index: seq<Container>, next: seq<Container>)
    requires Counter(pts, dim, leafMax, was, t0, n) && Merged(pts, dim, leafMax, was, t, n, pos, idx, index, next)
    ensures AllOf(next, |next|) == multiset(Range(n)) + multiset{idx}
  {
    hide Indexed, Pow2, Bit, TreeSize, Named, AllOf, Range;
    assert multiset(index[pos].vind + [idx]) == AllOf(was, pos) + multiset{idx};
    AllOfMerged(was, next, pos, |was|, idx);
  }

  lemma MergedNext(pts: seq<Row>, dim: nat, leafMax: nat, was: seq<Container>, t0: seq<int>, t: seq<int>, n: nat,
                   pos: nat,
                   index: seq<Container>, next: seq<Container>)
    requires Counter(pts, dim, leafMax, was, t0, n) && |t| == |t0|
    requires Merged(pts, dim, leafMax, was, t, n, pos, n, index, next)
    requires AllOf(next, |next|) == multiset(Range(n)) + multiset{n}
    ensures Counter(pts, dim, leafMax, next, t, n + 1)
  {
    hide Indexed, Pow2, Bit, TreeSize, Named, AllOf, Range;
    RangeNext(n);
    var full := index[pos].vind + [n];
    NamedAppend(t, index[pos].vind, n, pos);
    NamedPermute(t, full, next[pos].vind, pos);
    SameLength(next[pos].vind, full);
    forall k | 0 <= k < |next|
      ensures Indexed(pts, dim, next[k], leafMax) && |next[k].vind| == TreeSize(n + 1, k) && Named(t, next[k].vind, k)
    {
      SizeAfter(n, pos, k);
      if k < pos {
        EmptyIndexed(pts, dim, next[k], leafMax);
      }
    }
  }

  lemma RangeNext(n: nat)
    ensures multiset(Range(n + 1)) == multiset(Range(n)) + multiset{n}
  {
    assert Range(n + 1) == Range(n) + [n];
  }

  lemma NamedAppend(t: seq<int>, v: seq<nat>, x: nat, k: int)
    requires Named(t, v, k) && x < |t| && (t[x] == -1 || t[x] == k)
    ensures Named(t, v + [x], k)
  {
  }

  lemma SameLength(a: seq<nat>, b: seq<nat>)
    requires multiset(a) == multiset(b)
    ensures |a| == |b|
  {
    assert |multiset(a)| == |a| && |multiset(b)| == |b|;
  }

  lemma SizeAfter(n: nat, pos: nat, k: nat)
    requires !Bit(n, pos) && forall i :: 0 <= i < pos ==> Bit(n, i)
    ensures TreeSize(n + 1, k) == if k < pos then 0 else if k == pos then Pow2(pos) else TreeSize(n, k)
  {
    hide Bit, Pow2;
    Carry(n, pos, k);
  }

  lemma EmptyIndexed(pts: seq<Row>, dim: nat, c: Container, leafMax: nat)
    requires DataOk(pts, dim) && c.vind == [] && c.root_node.NULL?
    ensures Indexed(pts, dim, c, leafMax)
  {
  }

  lemma TreeFacts(pts: seq<Row>, dim: nat, leafMax: nat, index: seq<Container>, t: seq<int>, n: nat, i: nat)
    requires Counter(pts, dim, leafMax, index, t, n) && i < |index|
    ensures |index[i].vind| == TreeSize(n, i) && Valid(pts, dim, index[i].vind, 0)
  {
  }

  // ---------- a query over all trees ----------

  ghost function AllHits(pts: seq<Row>, dim: nat, treeIndex: seq<int>, vec: seq<real>, index: seq<Container>,
                         k: nat): multiset<Hit>
    requires k <= |index| && forall i :: 0 <= i < |index| ==> QueryOk(pts, dim, treeIndex, vec, index[i].vind)
  {
    if k == 0 then multiset{}
    else
      AllHits(pts, dim, treeIndex, vec, index, k - 1)
      + Hits(pts, dim, treeIndex, vec, index[k - 1].vind, 0, |index[k - 1].vind|)
  }

  lemma {:induction false} AllHitsCount(pts: seq<Row>, dim: nat, treeIndex: seq<int>, vec: seq<real>,
                                        index: seq<Container>, k: nat, c: Hit)
    requires DataOk(pts, dim) && |vec| == dim && |treeIndex| <= |pts|
    requires k <= |index| && forall i :: 0 <= i < |index| ==> QueryOk(pts, dim, treeIndex, vec, index[i].vind)
    ensures AllHits(pts, dim, treeIndex, vec, index, k)[c] == if IsHit(pts, dim, treeIndex, vec, c) then
      AllOf(index, k)[c.item] else 0
  {
    hide IsHit, Hits;
    if k > 0 {
      AllHitsCount(pts, dim, treeIndex, vec, index, k - 1, c);
      HitsCount(pts, dim, treeIndex, vec, index[k - 1].vind, |index[k - 1].vind|, c);
      assert index[k - 1].vind[..|index[k - 1].vind|] == index[k - 1].vind;
    }
  }

  /** All trees together offer what a brute-force scan of the points not removed would see. */
  lemma AllHitsIsEverything(pts: seq<Row>, dim: nat, leafMax: nat, treeIndex: seq<int>, vec: seq<real>,
                            index: seq<Container>)
    requires Counter(pts, dim, leafMax, index, treeIndex, |treeIndex|) && |vec| == dim
    ensures forall i :: 0 <= i < |index| ==> QueryOk(pts, dim, treeIndex, vec, index[i].vind)
    ensures AllHits(pts, dim, treeIndex, vec, index, |index|) == Everything(pts, dim, treeIndex, vec)
  {
    forall i | 0 <= i < |index| ensures QueryOk(pts, dim, treeIndex, vec, index[i].vind) {
      assert Named(treeIndex, index[i].vind, i);
    }
    hide IsHit, Hits, Indexed, Named;
    forall c ensures AllHits(pts, dim, treeIndex, vec, index, |index|)[c] == Everything(pts, dim, treeIndex, vec)[c] {
      AllHitsCount(pts, dim, treeIndex, vec, index, |index|, c);
      EverythingIs(pts, dim, treeIndex, vec, c);
      if IsHit(pts, dim, treeIndex, vec, c) { HitInRange(pts, dim, treeIndex, vec, c); RangeOnce(|treeIndex|, c.item); }
    }
  }

  lemma HitInRange(pts: seq<Row>, dim: nat, treeIndex: seq<int>, vec: seq<real>, c: Hit)
    requires DataOk(pts, dim) && |vec| == dim && |treeIndex| <= |pts| && IsHit(pts, dim, treeIndex, vec, c)
    ensures 0 <= c.item < |treeIndex|
  {
  }

  /** dataset stands for the rows the data source has by the time they are added. */
  class KDTreeSingleIndexDynamicAdaptor {
    const dataset: seq<Row>
    const dim: nat
    const m_leaf_max_size: nat
    const treeCount: nat
    var pointCount: nat
    var treeIndex: seq<int>
    var index: seq<Container>

    ghost predicate Valid()
      reads this
    {
      |index| == treeCount && |treeIndex| == pointCount
        && Counter(dataset, dim, m_leaf_max_size, index, treeIndex, pointCount)
    }

    /** Moves what tree i holds into tree pos and empties tree i. */
    method Absorb(pos: nat, i: nat)
      requires i < pos < |index| && Named(treeIndex, index[i].vind, i) && Named(treeIndex, index[pos].vind, pos)
      modifies this`index, this`treeIndex
      ensures |index| == |old(index)| && Moved(old(treeIndex), treeIndex, i, pos)
      ensures index[i].vind == [] && index[i].root_node.NULL?
      ensures index[pos].vind == old(index[pos].vind) + old(index[i].vind) && Named(treeIndex, index[pos].vind, pos)
      ensures forall k :: 0 <= k < |index| && k != i && k != pos ==> index[k] == old(index[k])
    {
      ghost var a, v, w := treeIndex, index[i].vind, index[pos].vind;
      for j := 0 to |index[i].vind|
        invariant |index| == |old(index)| && index[i] == old(index[i]) && Moved(a, treeIndex, i, pos)
        invariant index[pos].vind == w + v[..j] && Named(treeIndex, index[pos].vind, pos)
        invariant forall k :: 0 <= k < |index| && k != i && k != pos ==> index[k] == old(index[k])
      {
        var x := index[i].vind[j];
        index := index[pos := index[pos].(vind := index[pos].vind + [x])];
        assert a[x] == -1 || a[x] == i;
        if treeIndex[x] != -1 {
          treeIndex := treeIndex[x := pos];
        }
      }
      assert v[..|v|] == v;
      index := index[i := index[i].(vind := [])];
      index := index[i := index[i].(root_node := NULL)];
    }

    /** Inserts a point: the trees below the lowest empty place are merged into it. Any point but the
        next one breaks the counter. */
    method AddOne(idx: nat)
      requires |index| == treeCount && Counter(dataset, dim, m_leaf_max_size, index, treeIndex, pointCount)
      requires pointCount < |treeIndex| && idx < |dataset| && pointCount + 1 < Pow2(treeCount)
      modifies this
      ensures pointCount == old(pointCount) + 1 && |treeIndex| == |old(treeIndex)| && |index| == treeCount
      ensures AllOf(index, |index|) == multiset(Range(old(pointCount))) + multiset{idx}
      ensures Counter(dataset, dim, m_leaf_max_size, index, treeIndex, pointCount) <==> idx == old(pointCount)
      ensures SameRemoved(old(treeIndex), treeIndex, old(pointCount)) && treeIndex[old(pointCount)] != -1
    {
      hide Indexed, Named, Pow2, Bit, TreeSize, AllOf, Merging, Counter;
      ghost var was, t0, n := index, treeIndex, pointCount;
      var pos := First0Bit(pointCount);
      LowestZero(n, treeCount, pos);
      CounterData(dataset, dim, m_leaf_max_size, was, t0, n);
      MergeStart(dataset, dim, m_leaf_max_size, was, t0, n, pos);
      index := index[pos := index[pos].(vind := [])];
      assert index == was;
      treeIndex := treeIndex[pointCount := pos];
      for i := 0 to pos
        invariant |index| == treeCount && Merging(dataset, dim, m_leaf_max_size, was, index, treeIndex, pos, i)
        invariant pointCount == n && |treeIndex| == |t0| && SameRemoved(t0, treeIndex, n) && treeIndex[n] != -1
        invariant treeIndex[n] == pos
      {
        ghost var before, t := index, treeIndex;
        MergingTrees(dataset, dim, m_leaf_max_size, was, index, treeIndex, pos, i);
        TreeFacts(dataset, dim, m_leaf_max_size, was, t0, n, i);
        Absorb(pos, i);
        MergeStep(dataset, dim, m_leaf_max_size, was, before, t, n, pos, i, index, treeIndex);
      }
      ghost var merged := index;
      MergingTrees(dataset, dim, m_leaf_max_size, was, index, treeIndex, pos, pos);
      index := index[pos := index[pos].(vind := index[pos].vind + [idx])];
      var c := buildIndex(dataset, dim, index[pos].vind, m_leaf_max_size, index[pos].root_bbox);
      index := index[pos := c];
      MergeDone(dataset, dim, m_leaf_max_size, was, t0, treeIndex, n, pos, idx, merged, index);
      pointCount := pointCount + 1;
    }

    /** Starts with empty trees and inserts the points that the data source already has. */
    constructor (dataset: seq<Row>, dimensionality: nat, leaf_max_size: nat, treeCount: nat, num_initial_points: nat)
      requires DataOk(dataset, dimensionality) && leaf_max_size >= 1 && num_initial_points <= |dataset|
      requires num_initial_points < Pow2(treeCount)
      ensures Valid() && pointCount == num_initial_points && (forall x :: 0 <= x < pointCount ==> treeIndex[x] != -1)
      ensures this.dataset == dataset && dim == dimensionality && this.treeCount == treeCount
      ensures m_leaf_max_size == leaf_max_size
    {
      this.dataset, dim, m_leaf_max_size, this.treeCount := dataset, dimensionality, leaf_max_size, treeCount;
      pointCount, treeIndex := 0, [];
      index := seq(treeCount, _ => Container([], 0, NULL, []));
      new;
      EmptyCounter(dataset, dim, m_leaf_max_size, index);
      if num_initial_points > 0 {
        addPoints(0, num_initial_points - 1);
      }
    }

    /** Inserts the points start to end, which must continue the points inserted so far. */
    method addPoints(start: nat, end: nat)
      requires Valid() && start == pointCount && start <= end < |dataset| && end + 1 < Pow2(treeCount)
      modifies this
      ensures Valid() && pointCount == end + 1
      ensures SameRemoved(old(treeIndex), treeIndex[..old(pointCount)], old(pointCount))
      ensures forall x :: old(pointCount) <= x < pointCount ==> treeIndex[x] != -1
    {
      hide Counter, Pow2;
      ghost var t0, n0 := treeIndex, pointCount;
      var count := end - start + 1;
      CounterData(dataset, dim, m_leaf_max_size, index, treeIndex, pointCount);
      MoreRoom(dataset, dim, m_leaf_max_size, index, treeIndex, pointCount, seq(count, _ => 0));
      treeIndex := treeIndex + seq(count, _ => 0);
      var idx := start;
      while idx <= end
        invariant start <= idx <= end + 1 && pointCount == idx && |index| == treeCount && |treeIndex| == end + 1
        invariant Counter(dataset, dim, m_leaf_max_size, index, treeIndex, pointCount)
        invariant SameRemoved(t0, treeIndex[..n0], n0) && forall x :: n0 <= x < pointCount ==> treeIndex[x] != -1
        decreases end + 1 - idx
      {
        PowMonotone(idx, end, treeCount);
        AddOne(idx);
        idx := idx + 1;
      }
    }

    /** Lazy deletion: the point keeps its place in its tree and is passed over by queries. */
    method removePoint(idx: nat)
      requires Valid()
      modifies this`treeIndex
      ensures Valid() && treeIndex == if idx < pointCount then old(treeIndex)[idx := -1] else old(treeIndex)
    {
      if idx >= pointCount { return; }
      RemoveKeeps(dataset, dim, m_leaf_max_size, index, treeIndex, pointCount, idx);
      treeIndex := treeIndex[idx := -1];
    }

    /** A query over all trees equals brute force over the points that are not removed. */
    method findNeighbors(result: KNNResultSet, vec: seq<real>, eps: real) returns (full: bool)
      requires Valid() && |vec| == dim && eps >= 0.0 && Holds(result, multiset{}, 1.0 + eps)
      modifies result, result.indices, result.dists
      ensures DataOk(dataset, dim) && |treeIndex| <= |dataset|
      ensures Holds(result, Everything(dataset, dim, treeIndex, vec), 1.0 + eps)
      ensures full <==> |result.Found()| == result.capacity
    {
      hide Holds, Hits, Counter, Everything, Indexed;
      CounterData(dataset, dim, m_leaf_max_size, index, treeIndex, pointCount);
      AllHitsIsEverything(dataset, dim, m_leaf_max_size, treeIndex, vec, index);
      for i := 0 to treeCount
        invariant Holds(result, AllHits(dataset, dim, treeIndex, vec, index, i), 1.0 + eps)
      {
        TreeIndexed(dataset, dim, m_leaf_max_size, index, treeIndex, pointCount, i);
        var ignored := NanoSearch.findNeighbors(dataset, dim, index[i], treeIndex, result, vec, eps, m_leaf_max_size,
          AllHits(dataset, dim, treeIndex, vec, index, i));
      }
      full := IsFull(result, Everything(dataset, dim, treeIndex, vec), 1.0 + eps);
    }
  }

  lemma TreeIndexed(pts: seq<Row>, dim: nat, leafMax: nat, index: seq<Container>, t: seq<int>, n: nat, i: nat)
    requires Counter(pts, dim, leafMax, index, t, n) && i < |index|
    ensures Indexed(pts, dim, index[i], leafMax)
  {
  }

  lemma EmptyCounter(pts: seq<Row>, dim: nat, leafMax: nat, index: seq<Container>)
    requires DataOk(pts, dim) && leafMax >= 1 && forall i :: 0 <= i < |index| ==> index[i] == Container([], 0, NULL, [])
    ensures Counter(pts, dim, leafMax, index, [], 0)
  {
    AllOfEmpty(index, |index|);
    PowPositive(|index|);
    forall i | 0 <= i < |index| ensures TreeSize(0, i) == 0 { NoBits(i); }
  }

  lemma {:induction false} PowPositive(i: nat)
    ensures Pow2(i) >= 1
  {
    if i > 0 { PowPositive(i - 1); }
  }

  lemma PowMonotone(idx: nat, end: nat, k: nat)
    requires idx <= end && end + 1 < Pow2(k)
    ensures idx + 1 < Pow2(k)
  {
  }

  lemma MoreRoom(pts: seq<Row>, dim: nat, leafMax: nat, index: seq<Container>, t: seq<int>, n: nat, more: seq<int>)
    requires Counter(pts, dim, leafMax, index, t, n) && |t| == n && n + |more| <= |pts|
    ensures Counter(pts, dim, leafMax, index, t + more, n)
  {
    forall i | 0 <= i < |index| ensures Named(t + more, index[i].vind, i) { assert Named(t, index[i].vind, i); }
  }

  lemma RemoveKeeps(pts: seq<Row>, dim: nat, leafMax: nat, index: seq<Container>, t: seq<int>, n: nat, idx: nat)
    requires Counter(pts, dim, leafMax, index, t, n) && idx < |t|
    ensures Counter(pts, dim, leafMax, index, t[idx := -1], n)
  {
    forall i | 0 <= i < |index| ensures Named(t[idx := -1], index[i].vind, i) { assert Named(t, index[i].vind, i); }
  }

  lemma LowestZero(n: nat, k: nat, pos: nat)
    requires n + 1 < Pow2(k) && forall i :: 0 <= i < pos ==> Bit(n, i)
    ensures pos < k
  {
    if pos >= k { AllOnes(n, k); }
  }

  lemma CounterData(pts: seq<Row>, dim: nat, leafMax: nat, index: seq<Container>, t: seq<int>, n: nat)
    requires Counter(pts, dim, leafMax, index, t, n)
    ensures DataOk(pts, dim) && leafMax >= 1 && n <= |t| <= |pts|
  {
  }

  lemma MergingTrees(pts: seq<Row>, dim: nat, leafMax: nat, was: seq<Container>, index: seq<Container>, t: seq<int>,
                     pos: nat, i: nat)
    requires Merging(pts, dim, leafMax, was, index, t, pos, i)
    ensures Named(t, index[pos].vind, pos) && Valid(pts, dim, index[pos].vind, 0)
    ensures i < pos ==> Named(t, index[i].vind, i) && index[i] == was[i]
  {
  }
}
