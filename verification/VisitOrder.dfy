/** What the bounded heap makes of candidates offered one after the other, in whatever order a tree
    brings them, and exactly when the listed result is right. */
module VisitOrder {
  import opened Geometry
  import opened KNearest
  import opened ManualHeap
  import opened Sorting

  /** q.size() < k_nearest || dist < q.top().dist */
  predicate Worth(s: seq<Candidate>, k: nat, dist: Ext)
    requires k >= 1
  {
    |s| < k || Below(dist, s[0].dist)
  }

  /** Keeps a candidate if there is room or it beats the top, which then leaves. */
  function Offer(s: seq<Candidate>, k: nat, c: Candidate): (r: seq<Candidate>)
    requires k >= 1 && |s| <= k
    ensures |r| == if |s| < k then |s| + 1 else k
  {
    if Worth(s, k, Fin(c.dist)) then Push(if |s| >= k then Pop(s) else s, c) else s
  }

  function OfferAll(s: seq<Candidate>, k: nat, order: seq<Candidate>): (r: seq<Candidate>)
    requires k >= 1 && |s| <= k
    ensures |r| <= k
  {
    if order == [] then s else Offer(OfferAll(s, k, order[..|order| - 1]), k, order[|order| - 1])
  }

  /** Taking the top off until nothing is left, each ahead of the ones taken before. */
  function Listed(s: seq<Candidate>): (r: seq<Candidate>)
    ensures |r| == |s|
    decreases |s|
  {
    if s == [] then [] else Listed(Pop(s)) + [s[0]]
  }

  /** The k nearest of all, nearest first. */
  ghost predicate Exact(r: seq<Candidate>, all: multiset<Candidate>, k: nat) {
    Ascending(r) && Nearest(multiset(r), all, k)
  }

  // ---------- what every order keeps ----------

  /** The heap holds k of the candidates seen, and leaves out only what is no nearer or beyond the cut. */
  ghost predicate Holds(cut: Ext, s: seq<Candidate>, seen: multiset<Candidate>, k: nat) {
    && k >= 1 && multiset(s) <= seen && |s| == Least(k, |seen|) && IsHeap(cut, s)
    && forall a, b :: a in multiset(s) && b in seen - multiset(s) ==> Far(cut, b) || a.dist <= b.dist
  }

  /** Nothing among m makes the heap err below the cut; a heap of one cannot err at all. */
  ghost predicate Fit(cut: Ext, m: multiset<Candidate>, k: nat) { k == 1 || OrderlyBelow(cut, m) }

  lemma FitSub(cut: Ext, a: multiset<Candidate>, b: multiset<Candidate>, k: nat)
    requires Fit(cut, b, k) && a <= b
    ensures Fit(cut, a, k)
  {
    if k != 1 { OrderlySub(cut, a, b); }
  }

  lemma ShortHeap(cut: Ext, s: seq<Candidate>)
    requires |s| <= 1
    ensures IsHeap(cut, s)
  {
  }

  lemma HoldsNone(cut: Ext, k: nat)
    requires k >= 1
    ensures Holds(cut, [], multiset{}, k)
  {
  }

  lemma SizeOfHeld(s: seq<Candidate>)
    ensures |multiset(s)| == |s|
  {
  }

  lemma TopHeld(cut: Ext, s: seq<Candidate>, seen: multiset<Candidate>, k: nat)
    requires Holds(cut, s, seen, k) && |s| > 0
    ensures s[0] in multiset(s) && (Far(cut, s[0]) || AtMost(multiset(s), s[0].dist))
  {
    TopIsFarthest(cut, s);
  }

  /** Candidates no nearer than the top of a full heap can be skipped unseen. */
  lemma SkipHolds(cut: Ext, s: seq<Candidate>, seen: multiset<Candidate>, k: nat, far: multiset<Candidate>)
    requires Holds(cut, s, seen, k) && |s| == k && AtLeast(far, s[0].dist)
    ensures Holds(cut, s, seen + far, k)
  {
    TopHeld(cut, s, seen, k);
    hide IsHeap;
    assert (seen + far) - multiset(s) == (seen - multiset(s)) + far;
  }

  lemma InsertHolds(cut: Ext, s: seq<Candidate>, seen: multiset<Candidate>, k: nat, c: Candidate, t: seq<Candidate>)
    requires Holds(cut, s, seen, k) && |s| < k && multiset(t) == multiset(s) + multiset{c} && IsHeap(cut, t)
    ensures Holds(cut, t, seen + multiset{c}, k)
  {
    hide IsHeap;
    SizeOfHeld(s);
    SizeOfHeld(t);
    NoneLeftOut(multiset(s), seen);
    assert (seen + multiset{c}) - multiset(t) == multiset{};
  }

  lemma ReplaceHolds(cut: Ext, s: seq<Candidate>, seen: multiset<Candidate>, k: nat, c: Candidate, t: seq<Candidate>)
    requires Holds(cut, s, seen, k) && |s| == k && c.dist < s[0].dist && |t| == k
    requires multiset(t) == multiset(s) - multiset{s[0]} + multiset{c} && IsHeap(cut, t)
    ensures Holds(cut, t, seen + multiset{c}, k)
  {
    TopHeld(cut, s, seen, k);
    hide IsHeap;
    var w := s[0];
    assert (seen + multiset{c}) - multiset(t) == (seen - multiset(s)) + multiset{w};
    forall a, b | a in multiset(t) && b in (seen + multiset{c}) - multiset(t) ensures Far(cut, b) || a.dist <= b.dist {
      assert b == w || b in seen - multiset(s);
      assert a == c || a in multiset(s);
      if b != w { assert Far(cut, b) || w.dist <= b.dist; }
    }
  }

  lemma OfferHolds(cut: Ext, s: seq<Candidate>, seen: multiset<Candidate>, k: nat, c: Candidate)
    requires Holds(cut, s, seen, k) && |s| <= k && Fit(cut, seen + multiset{c}, k)
    ensures Holds(cut, Offer(s, k, c), seen + multiset{c}, k)
  {
    var r := Offer(s, k, c);
    if !Worth(s, k, Fin(c.dist)) {
      SkipHolds(cut, s, seen, k, multiset{c});
    } else if |s| < k {
      PushKeeps(s, c);
      if k == 1 { ShortHeap(cut, r); } else {
        OrderlySub(cut, multiset(s) + multiset{c}, seen + multiset{c});
        PushHeap(cut, s, c);
      }
      InsertHolds(cut, s, seen, k, c, r);
    } else {
      PopKeeps(s);
      PushKeeps(Pop(s), c);
      if k == 1 { ShortHeap(cut, r); } else {
        OrderlySub(cut, multiset(s), seen + multiset{c});
        PopHeap(cut, s);
        OrderlySub(cut, multiset(Pop(s)) + multiset{c}, seen + multiset{c});
        PushHeap(cut, Pop(s), c);
      }
      hide IsHeap, OrderlyBelow;
      ReplaceHolds(cut, s, seen, k, c, r);
    }
  }

  lemma {:induction false} OfferAllHolds(cut: Ext, k: nat, order: seq<Candidate>)
    requires k >= 1 && Fit(cut, multiset(order), k)
    ensures Holds(cut, OfferAll([], k, order), multiset(order), k)
    decreases |order|
  {
    if order == [] {
      HoldsNone(cut, k);
    } else {
      var n := |order| - 1;
      assert order == order[..n] + [order[n]];
      FitSub(cut, multiset(order[..n]), multiset(order), k);
      OfferAllHolds(cut, k, order[..n]);
      OfferHolds(cut, OfferAll([], k, order[..n]), multiset(order[..n]), k, order[n]);
    }
  }

  // ---------- listing ----------

  lemma {:induction false} ListedKeeps(s: seq<Candidate>)
    ensures multiset(Listed(s)) == multiset(s)
    decreases |s|
  {
    if s != [] {
      PopKeeps(s);
      ListedKeeps(Pop(s));
      assert s[0] in multiset(s);
    }
  }

  /** Candidates below the cut are listed in order. */
  lemma {:induction false} ListedAscending(cut: Ext, s: seq<Candidate>)
    requires IsHeap(cut, s) && OrderlyBelow(cut, multiset(s)) && forall c :: c in multiset(s) ==> !Far(cut, c)
    ensures Ascending(Listed(s))
    decreases |s|
  {
    if s != [] {
      hide *;
      var t := Pop(s);
      ListedUnfold(s);
      PopKeeps(s);
      PopHeap(cut, s);
      OrderlySub(cut, multiset(t), multiset(s));
      ListedAscending(cut, t);
      ListedKeeps(t);
      TopIsFarthest(cut, s);
      AppendTop(Listed(t), multiset(s), s[0]);
    }
  }

  lemma ListedUnfold(s: seq<Candidate>)
    requires s != []
    ensures Listed(s) == Listed(Pop(s)) + [s[0]] && s[0] in multiset(s) && |Pop(s)| == |s| - 1
  {
  }

  lemma AppendTop(t: seq<Candidate>, m: multiset<Candidate>, w: Candidate)
    requires Ascending(t) && multiset(t) <= m && AtMost(m, w.dist)
    ensures Ascending(t + [w])
  {
    forall i | 0 <= i < |t| ensures t[i].dist <= w.dist { assert t[i] in multiset(t); }
  }

  lemma ListedOne(s: seq<Candidate>)
    requires |s| <= 1
    ensures Ascending(Listed(s))
  {
  }

  // ---------- when the result is right ----------

  /** At least k of m are strictly nearer than d. */
  ghost predicate KNearer(m: multiset<Candidate>, k: nat, d: real) {
    exists n: multiset<Candidate> :: n <= m && |n| == k && Nearer(n, d)
  }

  ghost predicate Nearer(n: multiset<Candidate>, d: real) { forall c :: c in n ==> c.dist < d }

  /** Every disorderly pair lies beyond the k nearest. */
  ghost predicate Tame(m: multiset<Candidate>, k: nat) {
    k == 1 || forall a, b :: a in m && b in m && Disorderly(a, b) ==> KNearer(m, k, a.dist)
  }

  /** Distances that differ by 1e-10 at least, if they differ at all, leave no pair to go wrong. */
  lemma ApartIsTame(m: multiset<Candidate>, k: nat)
    requires forall a, b :: a in m && b in m && a.dist < b.dist ==> b.dist - a.dist >= 0.0000000001
    ensures Tame(m, k)
  {
  }

  /** The cut leaves at least k candidates below it, or there is none. */
  ghost predicate Enough(cut: Ext, m: multiset<Candidate>, k: nat) { cut.Inf? || KNearer(m, k, cut.v) }

  lemma LeftOut(h: multiset<Candidate>, all: multiset<Candidate>, n: multiset<Candidate>, a: Candidate)
    requires h <= all && n <= all && |n| == |h| && a in h && a !in n
    ensures exists b :: b in n && b in all - h
  {
    if forall b :: b in n ==> n[b] <= h[b] {
      assert n <= h - multiset{a};
      Bigger(n, h - multiset{a});
    } else {
      var b :| b in n && n[b] > h[b];
      assert all[b] >= n[b];
    }
  }

  lemma Bigger(a: multiset<Candidate>, b: multiset<Candidate>)
    requires a <= b
    ensures |a| <= |b|
  {
    assert b == a + (b - a);
  }

  /** With enough candidates below the cut the heap holds none beyond it. */
  lemma NoneBeyond(cut: Ext, s: seq<Candidate>, all: multiset<Candidate>, k: nat, a: Candidate)
    requires Holds(cut, s, all, k) && Enough(cut, all, k) && a in multiset(s)
    ensures !Far(cut, a)
  {
    hide IsHeap;
    if Far(cut, a) {
      var n :| n <= all && |n| == k && Nearer(n, cut.v);
      Bigger(n, all);
      SizeOfHeld(s);
      LeftOut(multiset(s), all, n, a);
    }
  }

  lemma HoldsExact(cut: Ext, s: seq<Candidate>, all: multiset<Candidate>, k: nat)
    requires Holds(cut, s, all, k) && Fit(cut, all, k) && Enough(cut, all, k)
    ensures Exact(Listed(s), all, k)
  {
    ListedKeeps(s);
    SizeOfHeld(s);
    forall a | a in multiset(s) ensures !Far(cut, a) { NoneBeyond(cut, s, all, k, a); }
    if k == 1 { ListedOne(s); } else {
      OrderlySub(cut, multiset(s), all);
      ListedAscending(cut, s);
    }
    hide IsHeap;
    forall a, b | a in multiset(s) && b in all - multiset(s) ensures a.dist <= b.dist {
      if Far(cut, b) { assert !Far(cut, a); }
    }
  }

  function Before(m: multiset<Candidate>, d: real): set<Candidate> { set c | c in m && c.dist < d }

  /** The least distance of a nearer member of a disorderly pair. */
  lemma {:induction false} LeastDisorderly(m: multiset<Candidate>, a: Candidate, b: Candidate) returns (c: Candidate)
    requires a in m && b in m && Disorderly(a, b)
    ensures c in m && OrderlyBelow(Fin(c.dist), m) && exists d :: d in m && Disorderly(c, d)
    decreases |Before(m, a.dist)|
  {
    if x, y :| x in m && y in m && Disorderly(x, y) && x.dist < a.dist {
      assert x in Before(m, a.dist) && x !in Before(m, x.dist);
      Fewer(Before(m, x.dist), Before(m, a.dist), x);
      c := LeastDisorderly(m, x, y);
    } else {
      c := a;
    }
  }

  lemma Fewer(a: set<Candidate>, b: set<Candidate>, x: Candidate)
    requires a <= b && x in b && x !in a
    ensures |a| < |b|
  {
    assert b == (b - {x}) + {x};
    assert a <= b - {x};
    Subset(a, b - {x});
  }

  lemma Subset(a: set<Candidate>, b: set<Candidate>)
    requires a <= b
    ensures |a| <= |b|
  {
    assert b == a + (b - a);
  }

  /** Some cut keeps all disorderly pairs away, tame or not. */
  lemma AnyCut(m: multiset<Candidate>) returns (cut: Ext)
    ensures OrderlyBelow(cut, m)
  {
    cut := Inf;
    if a, b :| a in m && b in m && Disorderly(a, b) {
      var c := LeastDisorderly(m, a, b);
      cut := Fin(c.dist);
    }
  }

  lemma AnyFit(cut: Ext, m: multiset<Candidate>, k: nat)
    ensures OrderlyBelow(cut, m) ==> Fit(cut, m, k)
  {
  }

  lemma CutExists(m: multiset<Candidate>, k: nat) returns (cut: Ext)
    requires Tame(m, k) && k >= 1
    ensures Fit(cut, m, k) && Enough(cut, m, k)
  {
    if k == 1 || OrderlyBelow(Inf, m) {
      cut := Inf;
    } else {
      var a, b :| a in m && b in m && Disorderly(a, b);
      var c := LeastDisorderly(m, a, b);
      cut := Fin(c.dist);
    }
  }

  /** Tame candidates are listed exactly, in whatever order they are visited. */
  lemma VisitExact(m: multiset<Candidate>, k: nat, order: seq<Candidate>)
    requires k >= 1 && multiset(order) == m && Tame(m, k)
    ensures Exact(Listed(OfferAll([], k, order)), m, k)
  {
    var cut := CutExists(m, k);
    hide Fit, Holds, Exact, Tame, Enough;
    OfferAllHolds(cut, k, order);
    HoldsExact(cut, OfferAll([], k, order), m, k);
  }

  // ---------- and when it is wrong ----------

  function Closer(s: seq<Candidate>, d: real): (r: seq<Candidate>) {
    if s == [] then [] else Closer(s[..|s| - 1], d) + if s[|s| - 1].dist < d then [s[|s| - 1]] else []
  }

  lemma {:induction false} CloserIs(s: seq<Candidate>, d: real)
    ensures forall c :: multiset(Closer(s, d))[c] == if c.dist < d then multiset(s)[c] else 0
  {
    if s != [] {
      CloserIs(s[..|s| - 1], d);
      assert s == s[..|s| - 1] + [s[|s| - 1]];
    }
  }

  lemma {:induction false} OfferAllConcat(s: seq<Candidate>, k: nat, a: seq<Candidate>, b: seq<Candidate>)
    requires k >= 1 && |s| <= k
    ensures OfferAll(s, k, a + b) == OfferAll(OfferAll(s, k, a), k, b)
    decreases |b|
  {
    if b == [] {
      assert a + b == a;
    } else {
      assert (a + b)[..|a + b| - 1] == a + b[..|b| - 1];
      OfferAllConcat(s, k, a, b[..|b| - 1]);
    }
  }

  /** A disorderly pair offered first stays as it comes, the nearer one on top. */
  lemma PairFirst(k: nat, a: Candidate, b: Candidate)
    requires k >= 2 && Disorderly(a, b)
    ensures OfferAll([], k, [a, b]) == [a, b]
  {
    assert [] + [a] == [a] && Float([a], 0) == [a];
    assert [a][..0] == [] && OfferAll([], k, []) == [];
    assert OfferAll([], k, [a]) == Offer([], k, a) == [a];
    assert [a] + [b] == [a, b] && !Less(a, b) && Float([a, b], 1) == [a, b];
    assert [a, b][..1] == [a] && OfferAll([], k, [a, b]) == Offer([a], k, b);
  }

  /** While there is room the top is one of those seen. */
  lemma {:induction false} Filling(s: seq<Candidate>, k: nat, order: seq<Candidate>)
    requires 1 <= |s| && |s| + |order| <= k
    ensures var r := OfferAll(s, k, order);
      |r| == |s| + |order| && multiset(r) == multiset(s) + multiset(order) && (r[0] == s[0] || r[0] in order)
    decreases |order|
  {
    if order != [] {
      var n := |order| - 1;
      assert order == order[..n] + [order[n]];
      Filling(s, k, order[..n]);
      PushKeeps(OfferAll(s, k, order[..n]), order[n]);
    }
  }

  lemma {:induction false} AllRejected(s: seq<Candidate>, k: nat, order: seq<Candidate>)
    requires 1 <= |s| == k && forall i :: 0 <= i < |order| ==> s[0].dist <= order[i].dist
    ensures OfferAll(s, k, order) == s
    decreases |order|
  {
    if order != [] { AllRejected(s, k, order[..|order| - 1]); }
  }

  lemma NotAscending(s: seq<Candidate>, b: Candidate)
    requires |s| > 0 && b in multiset(s) && s[0].dist < b.dist
    ensures !Ascending(Listed(s))
  {
    PopKeeps(s);
    ListedKeeps(Pop(s));
    assert b in multiset(Listed(Pop(s)));
    var i :| 0 <= i < |Listed(Pop(s))| && Listed(Pop(s))[i] == b;
    assert Listed(s)[i] == b && Listed(s)[|s| - 1] == s[0];
  }

  /** The first k offered keep the far member b below the top; of the others only the last can get in. */
  lemma KeepsFar(k: nat, a: Candidate, b: Candidate, fill: seq<Candidate>, rest: seq<Candidate>, last: Candidate)
    requires k == |fill| + 2 && Disorderly(a, b) && forall i :: 0 <= i < |fill| ==> fill[i].dist < b.dist
    requires forall j :: 0 <= j < |rest| ==> a.dist <= rest[j].dist && forall i :: 0 <= i < |fill| ==>
      fill[i].dist <= rest[j].dist
    ensures var r := OfferAll([], k, [a, b] + fill + rest + [last]);
      |r| == k && b in multiset(r) && multiset(r) <= multiset{a, b} + multiset(fill) + multiset{last}
  {
    hide OfferAll, Offer, Push, Pop;
    OfferAllConcat([], k, [a, b] + fill + rest, [last]);
    OfferAllConcat([], k, [a, b] + fill, rest);
    OfferAllConcat([], k, [a, b], fill);
    PairFirst(k, a, b);
    Filling([a, b], k, fill);
    var h := OfferAll([a, b], k, fill);
    assert multiset([a, b]) == multiset{a, b};
    assert h[0] == a || h[0] in fill;
    AllRejected(h, k, rest);
    LastOffer(h, k, b, last);
  }

  lemma LastOffer(h: seq<Candidate>, k: nat, b: Candidate, last: Candidate)
    requires |h| == k >= 1 && b in multiset(h) && h[0].dist < b.dist
    ensures var r := OfferAll(h, k, [last]); |r| == k && b in multiset(r) && multiset(r) <= multiset(h) + multiset{last}
  {
    hide Push, Pop;
    assert [last][..0] == [] && OfferAll(h, k, []) == h;
    assert OfferAll(h, k, [last]) == Offer(h, k, last);
    if Worth(h, k, Fin(last.dist)) {
      PopKeeps(h);
      PushKeeps(Pop(h), last);
      assert h[0] in multiset(h);
    }
  }

  function DistOf(c: Candidate): real { c.dist }

  /** Whenever a disorderly pair reaches into the k nearest, some order of visiting the candidates
      nearer than its farther member, and that one, lists a wrong result; and if there are k - 1 of
      those, some order of visiting all candidates does. */
  lemma VisitGoesWrong(m: multiset<Candidate>, k: nat, a: Candidate, b: Candidate) returns (order: seq<Candidate>)
    requires k >= 2 && a in m && b in m && Disorderly(a, b) && !KNearer(m, k, a.dist)
    ensures Initial(multiset(order), m) && !Exact(Listed(OfferAll([], k, order)), multiset(order), k)
    ensures KNearer(m, k - 1, b.dist) ==> multiset(order) == m
  {
    hide *;
    var near, e, far := PickParts(m, k, a, b);
    order := WrongOrder(k, a, b, e, far);
    OrderHolds(k, a, b, e, far);
    GoesWrong(near, k, a, b, e, far);
  }

  /** The candidates nearer than b, sorted without a; and all the others, if the heap is full by then. */
  lemma PickParts(m: multiset<Candidate>, k: nat, a: Candidate, b: Candidate)
    returns (near: multiset<Candidate>, e: seq<Candidate>, far: seq<Candidate>)
    requires k >= 2 && a in m && b in m && Disorderly(a, b) && !KNearer(m, k, a.dist)
    ensures a in near && multiset(e) == near - multiset{a} && Ascending(e) && !KNearer(near, k, a.dist)
    ensures Nearer(near, b.dist)
    ensures (far == [] || |e| + 2 >= k) && forall i :: 0 <= i < |far| ==> b.dist <= far[i].dist
    ensures Initial(multiset{a} + multiset{b} + multiset(e) + multiset(far), m)
    ensures KNearer(m, k - 1, b.dist) ==> multiset{a} + multiset{b} + multiset(e) + multiset(far) == m
  {
    hide *;
    near, e, far := SplitAt(m, a, b);
    SizeOfHeld(e);
    SizeOfRest(near, a, e);
    if KNearer(m, k - 1, b.dist) { EnoughNear(m, near, k - 1, b.dist); }
    if |near| < k - 1 { far := []; }
    IsInitial(m, near, a, b, e, far);
    NotEnough(near, m, k, a.dist);
  }

  lemma GoesWrong(near: multiset<Candidate>, k: nat, a: Candidate, b: Candidate, e: seq<Candidate>, far: seq<Candidate>)
    requires k >= 2 && Disorderly(a, b) && a in near && multiset(e) == near - multiset{a} && Ascending(e)
    requires !KNearer(near, k, a.dist) && Nearer(near, b.dist)
    requires (far == [] || |e| + 2 >= k) && forall i :: 0 <= i < |far| ==> b.dist <= far[i].dist
    ensures var order := WrongOrder(k, a, b, e, far); !Exact(Listed(OfferAll([], k, order)), multiset(order), k)
  {
    hide *;
    EachNearer(near, a, e, b.dist);
    if |e| + 2 <= k {
      SmallGoesWrong(k, a, b, e, far);
    } else {
      LargeGoesWrong(near, k, a, b, e, far);
    }
  }

  /** a, b and what fills the heap, then what it rejects, then what may replace the top. */
  function WrongOrder(k: nat, a: Candidate, b: Candidate, e: seq<Candidate>, far: seq<Candidate>): seq<Candidate>
    requires k >= 2
  {
    if |e| + 2 <= k then [a, b] + e + far else [a, b] + e[..k - 2] + e[k - 1..] + [e[k - 2]] + far
  }

  lemma OrderHolds(k: nat, a: Candidate, b: Candidate, e: seq<Candidate>, far: seq<Candidate>)
    requires k >= 2
    ensures multiset(WrongOrder(k, a, b, e, far)) == multiset{a} + multiset{b} + multiset(e) + multiset(far)
  {
    assert multiset([a, b]) == multiset{a} + multiset{b};
    if |e| + 2 > k { assert e == e[..k - 2] + [e[k - 2]] + e[k - 1..]; }
  }

  /** What is nearer than b, sorted without a, and what is not, without b. */
  lemma SplitAt(m: multiset<Candidate>, a: Candidate, b: Candidate)
    returns (near: multiset<Candidate>, e: seq<Candidate>, far: seq<Candidate>)
    requires a in m && b in m && Disorderly(a, b)
    ensures IsPart(m, near, b.dist) && a in near && multiset(e) == near - multiset{a} && Ascending(e)
    ensures (forall i :: 0 <= i < |e| ==> e[i].dist < b.dist) && forall i :: 0 <= i < |far| ==> b.dist <= far[i].dist
    ensures multiset(far) == m - near - multiset{b}
  {
    hide *;
    near := PartOf(m, a, b);
    e := InOrder(near - multiset{a});
    far := SeqOf(m - near - multiset{b});
    AllNearer(m, near, a, e, b.dist);
    NoneNearer(m, near, b, far);
  }

  lemma PartOf(m: multiset<Candidate>, a: Candidate, b: Candidate) returns (near: multiset<Candidate>)
    requires a in m && Disorderly(a, b)
    ensures IsPart(m, near, b.dist) && a in near
  {
    CloserIs(SeqOf(m), b.dist);
    near := multiset(Closer(SeqOf(m), b.dist));
  }

  lemma AllNearer(m: multiset<Candidate>, near: multiset<Candidate>, a: Candidate, e: seq<Candidate>, d: real)
    requires IsPart(m, near, d) && multiset(e) == near - multiset{a}
    ensures forall i :: 0 <= i < |e| ==> e[i].dist < d
  {
    forall i | 0 <= i < |e| ensures e[i].dist < d { assert e[i] in multiset(e); }
  }

  lemma NoneNearer(m: multiset<Candidate>, near: multiset<Candidate>, b: Candidate, far: seq<Candidate>)
    requires IsPart(m, near, b.dist) && multiset(far) == m - near - multiset{b}
    ensures forall i :: 0 <= i < |far| ==> b.dist <= far[i].dist
  {
    forall i | 0 <= i < |far| ensures b.dist <= far[i].dist { assert far[i] in multiset(far); }
  }

  lemma InOrder(m: multiset<Candidate>) returns (e: seq<Candidate>)
    ensures multiset(e) == m && Ascending(e)
  {
    hide SortBy;
    e := SortBy(DistOf, SeqOf(m));
    Sorts(DistOf, SeqOf(m));
    forall i, j | 0 <= i < j < |e| ensures e[i].dist <= e[j].dist { assert DistOf(e[i]) <= DistOf(e[j]); }
  }

  ghost predicate IsPart(m: multiset<Candidate>, near: multiset<Candidate>, d: real) {
    forall c :: near[c] == if c.dist < d then m[c] else 0
  }

  lemma SizeOfRest(near: multiset<Candidate>, a: Candidate, e: seq<Candidate>)
    requires a in near && multiset(e) == near - multiset{a}
    ensures |near| == |e| + 1
  {
    assert near == multiset(e) + multiset{a};
  }

  lemma NotEnough(near: multiset<Candidate>, m: multiset<Candidate>, k: nat, d: real)
    ensures near <= m && !KNearer(m, k, d) ==> !KNearer(near, k, d)
  {
  }

  lemma EnoughNear(m: multiset<Candidate>, near: multiset<Candidate>, k: nat, d: real)
    requires KNearer(m, k, d) && IsPart(m, near, d)
    ensures |near| >= k
  {
    var n :| n <= m && |n| == k && Nearer(n, d);
    assert n <= near;
    Bigger(n, near);
  }

  lemma IsInitial(m: multiset<Candidate>, near: multiset<Candidate>, a: Candidate, b: Candidate, e: seq<Candidate>,
                  far: seq<Candidate>)
    requires IsPart(m, near, b.dist) && a in near && b in m && multiset(e) == near - multiset{a}
    requires far == [] || multiset(far) == m - near - multiset{b}
    ensures near <= m && Nearer(near, b.dist)
    ensures var p := multiset{a} + multiset{b} + multiset(e) + multiset(far);
      Initial(p, m) && (multiset(far) == m - near - multiset{b} ==> p == m)
  {
    hide Initial;
    var p := multiset{a} + multiset{b} + multiset(e) + multiset(far);
    assert near <= m && b !in near;
    assert p == near + multiset{b} + multiset(far);
    if multiset(far) == m - near - multiset{b} {
      assert p == m;
      WholeInitial(m);
    } else {
      assert p == near + multiset{b};
      PartInitial(m, near, b);
    }
  }

  lemma WholeInitial(m: multiset<Candidate>)
    ensures Initial(m, m)
  {
  }

  lemma PartInitial(m: multiset<Candidate>, near: multiset<Candidate>, b: Candidate)
    requires IsPart(m, near, b.dist) && b in m
    ensures Initial(near + multiset{b}, m)
  {
  }

  /** With each of its members, everything strictly nearer. */
  ghost predicate Initial(p: multiset<Candidate>, m: multiset<Candidate>) {
    p <= m && forall c, d :: c in m && d in p && c.dist < d.dist ==> p[c] == m[c]
  }

  lemma SmallGoesWrong(k: nat, a: Candidate, b: Candidate, e: seq<Candidate>, far: seq<Candidate>)
    requires |e| + 2 <= k && Disorderly(a, b) && forall i :: 0 <= i < |e| ==> e[i].dist < b.dist
    requires (far == [] || |e| + 2 == k) && forall i :: 0 <= i < |far| ==> b.dist <= far[i].dist
    ensures var order := WrongOrder(k, a, b, e, far); !Exact(Listed(OfferAll([], k, order)), multiset(order), k)
  {
    OfferAllConcat([], k, [a, b] + e, far);
    OfferAllConcat([], k, [a, b], e);
    PairFirst(k, a, b);
    Filling([a, b], k, e);
    var h := OfferAll([a, b], k, e);
    assert b in multiset([a, b]);
    if far == [] { assert OfferAll(h, k, far) == h; } else { AllRejected(h, k, far); }
    NotAscending(h, b);
  }

  lemma FirstNearer(near: multiset<Candidate>, k: nat, d: real, e: seq<Candidate>)
    requires k <= |e| && multiset(e) <= near && forall i :: 0 <= i < k ==> e[i].dist < d
    ensures KNearer(near, k, d)
  {
    var n := multiset(e[..k]);
    SizeOfHeld(e[..k]);
    assert e == e[..k] + e[k..];
    forall c | c in n ensures c.dist < d { var i :| 0 <= i < k && e[..k][i] == c; }
  }

  /** Fewer than k are nearer than a, so what comes from position k - 1 on is not. */
  lemma RestIsFar(near: multiset<Candidate>, k: nat, a: Candidate, e: seq<Candidate>, j: nat)
    requires k >= 1 && k - 1 <= j < |e| && multiset(e) <= near && Ascending(e) && !KNearer(near, k, a.dist)
    ensures a.dist <= e[j].dist
  {
    hide KNearer;
    if e[j].dist < a.dist { FirstNearer(near, k, a.dist, e); }
  }

  lemma LargeGoesWrong(near: multiset<Candidate>, k: nat, a: Candidate, b: Candidate, e: seq<Candidate>,
                       far: seq<Candidate>)
    requires 2 <= k <= |e| + 1 && Disorderly(a, b) && a in near && multiset(e) == near - multiset{a} && Ascending(e)
    requires !KNearer(near, k, a.dist) && Nearer(near, b.dist) && forall i :: 0 <= i < |far| ==> b.dist <= far[i].dist
    ensures var order := WrongOrder(k, a, b, e, far); !Exact(Listed(OfferAll([], k, order)), multiset(order), k)
  {
    hide *;
    Gap(a, b);
    var fill, rest, last := e[..k - 2], e[k - 1..], e[k - 2];
    EachNearer(near, a, e, b.dist);
    PartsOrdered(near, k, a, b, e);
    KeepsFar(k, a, b, fill, rest, last);
    var order := [a, b] + fill + rest + [last];
    var r := OfferAll([], k, order);
    assert r[0].dist <= b.dist by { TopWithin(r, a, b, fill, last); }
    AllRejected(r, k, far);
    OfferAllConcat([], k, order, far);
    OrderHolds(k, a, b, e, far);
    WrongOrderIs(k, a, b, e, far);
    LeavesNearer(r, multiset(order + far), k, a, b, e);
  }

  lemma PartsOrdered(near: multiset<Candidate>, k: nat, a: Candidate, b: Candidate, e: seq<Candidate>)
    requires 2 <= k <= |e| + 1 && a in near && multiset(e) == near - multiset{a} && Ascending(e)
    requires !KNearer(near, k, a.dist) && Nearer(near, b.dist)
    ensures var fill, rest := e[..k - 2], e[k - 1..];
      && (forall i :: 0 <= i < |fill| ==> fill[i].dist < b.dist) && e[k - 2].dist < b.dist
      && forall j :: 0 <= j < |rest| ==>
           a.dist <= rest[j].dist && forall i :: 0 <= i < |fill| ==> fill[i].dist <= rest[j].dist
  {
    hide *;
    var fill, rest := e[..k - 2], e[k - 1..];
    EachNearer(near, a, e, b.dist);
    SortedParts(e, k);
    forall j | 0 <= j < |rest| ensures a.dist <= rest[j].dist { RestIsFar(near, k, a, e, k - 1 + j); }
  }

  lemma Gap(a: Candidate, b: Candidate)
    ensures Disorderly(a, b) ==> a.dist < b.dist
  {
  }

  lemma EachNearer(near: multiset<Candidate>, a: Candidate, e: seq<Candidate>, d: real)
    requires multiset(e) == near - multiset{a} && Nearer(near, d)
    ensures forall i :: 0 <= i < |e| ==> e[i].dist < d
  {
    forall i | 0 <= i < |e| ensures e[i].dist < d { assert e[i] in multiset(e); }
  }

  lemma SortedParts(e: seq<Candidate>, k: nat)
    requires Ascending(e) && 2 <= k <= |e| + 1
    ensures var fill, rest := e[..k - 2], e[k - 1..];
      forall i, j :: 0 <= i < |fill| && 0 <= j < |rest| ==> fill[i].dist <= rest[j].dist
  {
  }

  lemma WrongOrderIs(k: nat, a: Candidate, b: Candidate, e: seq<Candidate>, far: seq<Candidate>)
    requires 2 <= k <= |e| + 1
    ensures WrongOrder(k, a, b, e, far) == [a, b] + e[..k - 2] + e[k - 1..] + [e[k - 2]] + far
  {
  }

  lemma TopWithin(r: seq<Candidate>, a: Candidate, b: Candidate, fill: seq<Candidate>, last: Candidate)
    requires r != [] && multiset(r) <= multiset{a, b} + multiset(fill) + multiset{last}
    requires a.dist < b.dist && last.dist < b.dist && forall i :: 0 <= i < |fill| ==> fill[i].dist < b.dist
    ensures r[0].dist <= b.dist
  {
    assert r[0] in multiset(r);
  }

  lemma LeavesNearer(r: seq<Candidate>, all: multiset<Candidate>, k: nat, a: Candidate, b: Candidate, e: seq<Candidate>)
    requires 2 <= k <= |e| + 1 && |r| == k && b in multiset(r) && multiset{a} + multiset(e) <= all
    requires a.dist < b.dist && forall i :: 0 <= i < |e| ==> e[i].dist < b.dist
    ensures !Exact(Listed(r), all, k)
  {
    hide Listed, Ascending;
    ListedKeeps(r);
    SizeOfHeld(r);
    var s := [a] + e[..k - 1];
    var n := multiset(s);
    SizeOfHeld(s);
    assert e == e[..k - 1] + e[k - 1..];
    assert n <= all;
    forall c | c in n ensures c.dist < b.dist { var i :| 0 <= i < k && s[i] == c; }
    if Nearest(multiset(r), all, k) {
      LeftOut(multiset(r), all, n, b);
    }
  }

  lemma TameInitial(p: multiset<Candidate>, m: multiset<Candidate>, k: nat)
    requires Initial(p, m) && Tame(m, k)
    ensures Tame(p, k)
  {
    if k != 1 {
      forall a, b | a in p && b in p && Disorderly(a, b) ensures KNearer(p, k, a.dist) {
        assert a in m && b in m;
        var n :| n <= m && |n| == k && Nearer(n, a.dist);
        forall c ensures n[c] <= p[c] { if c in n { assert c.dist < a.dist && p[c] == m[c]; } }
        assert n <= p;
      }
    }
  }

  /** Candidates are tame exactly when every visit of them, and of every nearest part of them, lists the k
      nearest in ascending order. A nearest part leaves out no candidate nearer than one that is in it, but
      may have only some of those at its greatest distance. */
  lemma VisitsExactIff(m: multiset<Candidate>, k: nat)
    requires k >= 1
    ensures Tame(m, k) <==>
      forall order: seq<Candidate> :: Initial(multiset(order), m) ==>
        Exact(Listed(OfferAll([], k, order)), multiset(order), k)
  {
    hide Listed, OfferAll, Exact;
    if Tame(m, k) {
      forall order: seq<Candidate> | Initial(multiset(order), m)
        ensures Exact(Listed(OfferAll([], k, order)), multiset(order), k)
      {
        TameInitial(multiset(order), m, k);
        VisitExact(multiset(order), k, order);
      }
    } else {
      var a, b :| a in m && b in m && Disorderly(a, b) && !KNearer(m, k, a.dist);
      var order := VisitGoesWrong(m, k, a, b);
    }
  }
}
