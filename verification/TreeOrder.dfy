/** Which objects a walk visits, and in what order, in terms of the tree alone (aes/gemobjop.c). */
module TreeOrder {
  import opened Chains
  import opened Geometry
  import opened TreeShape
  import opened TreeWalk

  // ---- how far below ----

  // The object n levels above v, or NIL.
  ghost function Up(t: Shape, v: int, n: nat): int
    requires Parents(t) && 0 <= v < |t.par|
    decreases n
  {
    if n == 0 then v
    else if t.par[v] == NIL then NIL
    else
      ParentRank(t, v);
      Up(t, t.par[v], n - 1)
  }

  // v lies n levels below s, and no object from s down to its parent is hidden.
  ghost predicate Reach(k: Looks, t: Shape, v: int, s: int, n: nat)
    requires Complete(k, t) && 0 <= v < |t.par|
  {
    Up(t, v, n) == s && forall m :: 0 < m <= n ==> 0 <= Up(t, v, m) < |t.par| && !k.hidden[Up(t, v, m)]
  }

  // At most depth levels below, that is, or v is s itself.
  ghost predicate Reached(k: Looks, t: Shape, v: int, s: int, depth: int)
    requires Complete(k, t) && 0 <= v < |t.par|
  {
    exists n: nat :: (n == 0 || n <= depth) && Reach(k, t, v, s, n)
  }

  lemma {:induction false} UpStep(t: Shape, v: int, n: nat)
    requires Parents(t) && 0 <= v < |t.par| && Up(t, v, n) != NIL
    ensures 0 <= Up(t, v, n) < |t.par| && Up(t, v, n + 1) == t.par[Up(t, v, n)]
    decreases n
  {
    if n > 0 {
      ParentRank(t, v);
      UpStep(t, t.par[v], n - 1);
    } else if t.par[v] != NIL {
      ParentRank(t, v);
      assert Up(t, t.par[v], 0) == t.par[v];
    }
  }

  lemma ReachUp(k: Looks, t: Shape, v: int, c: int, n: nat)
    requires Complete(k, t) && 0 <= v < |t.par| && 0 <= c < |t.par| && Reach(k, t, v, c, n)
    requires t.par[c] != NIL && 0 <= t.par[c] < |t.par| && !k.hidden[t.par[c]]
    ensures Reach(k, t, v, t.par[c], n + 1)
  {
    UpStep(t, v, n);
  }

  lemma ReachDown(k: Looks, t: Shape, v: int, s: int, n: nat) returns (c: int, i: nat)
    requires Complete(k, t) && 0 <= v < |t.par| && 0 <= s < |t.par| && n > 0 && Reach(k, t, v, s, n)
    ensures 0 <= c < |t.par| && Reach(k, t, v, c, n - 1) && i < |t.kids[s]| && t.kids[s][i] == c && !k.hidden[s]
  {
    c := Up(t, v, n - 1);
    if n > 1 {
      assert 0 <= Up(t, v, n - 1) < |t.par|;
    }
    UpStep(t, v, n - 1);
    i := PlaceOf(t, c);
  }

  lemma {:induction false} VisitReach(k: Looks, t: Shape, o: int, px: int, py: int, d: nat, j: nat) returns (n: nat)
    requires Complete(k, t) && 0 <= o < |t.kids| && j < |Pre(k, t, o, px, py, d)|
    ensures 0 <= Pre(k, t, o, px, py, d)[j].obj < |t.par|
    ensures n <= d && Reach(k, t, Pre(k, t, o, px, py, d)[j].obj, o, n)
    decreases d, 0
  {
    if j == 0 {
      n := 0;
    } else {
      hide Up, Reach;
      var c;
      n, c := AllReach(k, t, o, 0, px + k.x[o], py + k.y[o], d - 1, j - 1);
      ReachUp(k, t, Pre(k, t, o, px, py, d)[j].obj, c, n);
      n := n + 1;
    }
  }

  lemma {:induction false} AllReach(k: Looks, t: Shape, p: int, i: nat, px: int, py: int, d: nat, j: nat)
    returns (n: nat, c: int)
    requires Complete(k, t) && 0 <= p < |t.kids| && i <= |t.kids[p]| && j < |PreAll(k, t, p, i, px, py, d)|
    ensures 0 <= c < |t.par| && t.par[c] == p
    ensures 0 <= PreAll(k, t, p, i, px, py, d)[j].obj < |t.par|
    ensures n <= d && Reach(k, t, PreAll(k, t, p, i, px, py, d)[j].obj, c, n)
    decreases d, |t.kids[p]| - i + 1
  {
    hide Reach;
    c := t.kids[p][i];
    assert ChildOk(t, p, c);
    var first := Pre(k, t, c, px, py, d);
    if j < |first| {
      n := VisitReach(k, t, c, px, py, d, j);
    } else {
      n, c := AllReach(k, t, p, i + 1, px, py, d, j - |first|);
    }
  }

  lemma {:induction false} ReachVisit(k: Looks, t: Shape, v: int, o: int, n: nat, px: int, py: int, d: nat)
    returns (j: nat)
    requires Complete(k, t) && 0 <= v < |t.par| && 0 <= o < |t.par| && n <= d && Reach(k, t, v, o, n)
    ensures j < |Pre(k, t, o, px, py, d)| && Pre(k, t, o, px, py, d)[j].obj == v
    decreases n
  {
    if n == 0 {
      j := 0;
    } else {
      var c, i := ReachDown(k, t, v, o, n);
      hide Reach;
      j := ReachVisit(k, t, v, c, n - 1, px + k.x[o], py + k.y[o], d - 1);
      j := AllHave(k, t, o, 0, i, px + k.x[o], py + k.y[o], d - 1, j);
      j := j + 1;
    }
  }

  // What is visited below child m is visited below the children from i on.
  lemma {:induction false} AllHave(k: Looks, t: Shape, p: int, i: nat, m: nat, px: int, py: int, d: nat, j: nat)
    returns (j': nat)
    requires Complete(k, t) && 0 <= p < |t.kids| && i <= m < |t.kids[p]| && 0 <= t.kids[p][m] < |t.kids|
    requires j < |Pre(k, t, t.kids[p][m], px, py, d)|
    ensures j' < |PreAll(k, t, p, i, px, py, d)|
    ensures PreAll(k, t, p, i, px, py, d)[j'] == Pre(k, t, t.kids[p][m], px, py, d)[j]
    decreases m - i
  {
    var c := t.kids[p][i];
    assert ChildOk(t, p, c);
    if i == m {
      j' := j;
    } else {
      j' := AllHave(k, t, p, i + 1, m, px, py, d, j);
      j' := |Pre(k, t, c, px, py, d)| + j';
    }
  }

  ghost predicate InWalk(vs: seq<Visit>, v: int) {
    exists j :: 0 <= j < |vs| && vs[j].obj == v
  }

  /** A walk visits exactly the objects it reaches. */
  lemma VisitedIff(k: Looks, t: Shape, o: int, px: int, py: int, depth: int, v: int)
    requires Complete(k, t) && 0 <= o < |t.par| && 0 <= v < |t.par|
    ensures InWalk(Pre(k, t, o, px, py, Max(depth, 0)), v) <==> Reached(k, t, v, o, depth)
  {
    hide Pre, Reach;
    var vs := Pre(k, t, o, px, py, Max(depth, 0));
    if InWalk(vs, v) {
      var j :| 0 <= j < |vs| && vs[j].obj == v;
      var n := VisitReach(k, t, o, px, py, Max(depth, 0), j);
    }
    if Reached(k, t, v, o, depth) {
      var n: nat :| (n == 0 || n <= depth) && Reach(k, t, v, o, n);
      var j := ReachVisit(k, t, v, o, n, px, py, Max(depth, 0));
    }
  }

  // ---- the order ----

  // u is above v, or stands below an earlier child of an object than v does.
  ghost predicate Precedes(t: Shape, u: int, v: int)
    requires Parents(t) && 0 <= u < |t.par| && 0 <= v < |t.par|
  {
    (u != v && Below(t, v, u)) || exists p, a, b :: Branch(t, p, a, b, u, v)
  }

  ghost predicate Branch(t: Shape, p: int, a: int, b: int, u: int, v: int)
    requires Parents(t) && 0 <= u < |t.par| && 0 <= v < |t.par|
  {
    0 <= p < |t.kids| && 0 <= a < b < |t.kids[p]| && Below(t, u, t.kids[p][a]) && Below(t, v, t.kids[p][b])
  }

  /** Of two visits the earlier one precedes the other in the tree. */
  lemma {:induction false} VisitOrder(k: Looks, t: Shape, o: int, px: int, py: int, d: nat, i: nat, j: nat)
    requires Complete(k, t) && 0 <= o < |t.kids| && i < j < |Pre(k, t, o, px, py, d)|
    ensures InTree(t, Pre(k, t, o, px, py, d))
    ensures Precedes(t, Pre(k, t, o, px, py, d)[i].obj, Pre(k, t, o, px, py, d)[j].obj)
    decreases d, 0
  {
    hide Below, Precedes;
    VisitsIn(k, t, o, px, py, d);
    var x, y := px + k.x[o], py + k.y[o];
    var vs, all := Pre(k, t, o, px, py, d), PreAll(k, t, o, 0, x, y, d - 1);
    assert vs == [Visit(o, x, y)] + all;
    hide Pre, PreAll;
    if i == 0 {
      AllIn(k, t, o, 0, x, y, d - 1);
      AboveFirst(t, o, all[j - 1].obj);
    } else {
      AllOrder(k, t, o, 0, x, y, d - 1, i - 1, j - 1);
    }
  }

  lemma AboveFirst(t: Shape, u: int, v: int)
    requires Parents(t) && 0 <= u < |t.par| && 0 <= v < |t.par| && u != v && Below(t, v, u)
    ensures Precedes(t, u, v)
  {
  }

  lemma {:induction false} AllOrder(k: Looks, t: Shape, p: int, m: nat, px: int, py: int, d: nat, i: nat, j: nat)
    requires Complete(k, t) && 0 <= p < |t.kids| && m <= |t.kids[p]| && i < j < |PreAll(k, t, p, m, px, py, d)|
    ensures InTree(t, PreAll(k, t, p, m, px, py, d))
    ensures Precedes(t, PreAll(k, t, p, m, px, py, d)[i].obj, PreAll(k, t, p, m, px, py, d)[j].obj)
    decreases d, |t.kids[p]| - m + 1
  {
    hide Below, Precedes;
    AllIn(k, t, p, m, px, py, d);
    var c := t.kids[p][m];
    assert ChildOk(t, p, c);
    var first, rest := Pre(k, t, c, px, py, d), PreAll(k, t, p, m + 1, px, py, d);
    assert PreAll(k, t, p, m, px, py, d) == first + rest;
    hide Pre, PreAll;
    if j < |first| {
      VisitOrder(k, t, c, px, py, d, i, j);
    } else if i < |first| {
      VisitsBelow(k, t, c, px, py, d, i);
      AllBelow(k, t, p, m + 1, px, py, d, j - |first|);
      var b :| m + 1 <= b < |t.kids[p]| && Below(t, rest[j - |first|].obj, t.kids[p][b]);
      assert Branch(t, p, m, b, first[i].obj, rest[j - |first|].obj);
      BranchFirst(t, p, m, b, first[i].obj, rest[j - |first|].obj);
    } else {
      AllOrder(k, t, p, m + 1, px, py, d, i - |first|, j - |first|);
    }
  }

  lemma BranchFirst(t: Shape, p: int, a: int, b: int, u: int, v: int)
    requires Parents(t) && 0 <= u < |t.par| && 0 <= v < |t.par| && Branch(t, p, a, b, u, v)
    ensures Precedes(t, u, v)
  {
  }

  // ---- that this is an order ----

  lemma {:induction false} BelowTrans(t: Shape, v: int, u: int, s: int)
    requires Parents(t) && 0 <= v < |t.par| && 0 <= u < |t.par| && Below(t, v, u) && Below(t, u, s)
    ensures Below(t, v, s)
    decreases Highest(t.rank) - t.rank[v]
  {
    if v != u {
      ParentRank(t, v);
      BelowTrans(t, t.par[v], u, s);
    }
  }

  // Two objects above a third one are one below the other.
  lemma {:induction false} OneLine(t: Shape, v: int, u: int, s: int)
    requires Parents(t) && 0 <= v < |t.par| && 0 <= u < |t.par| && 0 <= s < |t.par| && Below(t, v, u) && Below(t, v, s)
    ensures Below(t, u, s) || Below(t, s, u)
    decreases Highest(t.rank) - t.rank[v]
  {
    if v != u && v != s {
      ParentRank(t, v);
      OneLine(t, t.par[v], u, s);
    }
  }

  // An object is below one child at most.
  lemma OneChild(t: Shape, p: int, a: int, b: int, v: int)
    requires Parents(t) && 0 <= p < |t.kids| && 0 <= v < |t.par| && 0 <= a < |t.kids[p]| && 0 <= b < |t.kids[p]|
    requires Below(t, v, t.kids[p][a]) && Below(t, v, t.kids[p][b])
    ensures t.kids[p][a] == t.kids[p][b]
  {
    var c, e := t.kids[p][a], t.kids[p][b];
    assert ChildOk(t, p, c) && ChildOk(t, p, e);
    OneLine(t, v, c, e);
    if c != e {
      if Below(t, c, e) {
        ParentRank(t, c);
        BelowRank(t, p, e);
      } else {
        ParentRank(t, e);
        BelowRank(t, p, c);
      }
    }
  }

  // An object strictly above another one has a child that is the other one or above it.
  lemma {:induction false} ChildAbove(t: Shape, v: int, s: int) returns (i: nat)
    requires Parents(t) && 0 <= v < |t.par| && 0 <= s < |t.par| && Below(t, v, s) && v != s
    ensures i < |t.kids[s]| && Below(t, v, t.kids[s][i])
    decreases Highest(t.rank) - t.rank[v]
  {
    ParentRank(t, v);
    if t.par[v] == s {
      i := PlaceOf(t, v);
      assert Below(t, v, v);
    } else {
      i := ChildAbove(t, t.par[v], s);
    }
  }

  // Two branchings are never in opposite order; p is the lower one.
  lemma NoCross(t: Shape, p: int, a: int, b: int, q: int, c: int, d: int, u: int, v: int)
    requires Parents(t) && 0 <= u < |t.par| && 0 <= v < |t.par| && 0 <= p < |t.par|
    requires Branch(t, p, a, b, u, v) && Below(t, p, q)
    requires forall s :: 0 <= s < |t.kids| ==> Distinct(t.kids[s])
    ensures !Branch(t, q, c, d, v, u)
  {
    assert ChildOk(t, p, t.kids[p][a]) && ChildOk(t, p, t.kids[p][b]);
    if Branch(t, q, c, d, v, u) {
      if p == q {
        OneChild(t, p, a, d, u);
        OneChild(t, p, b, c, v);
      } else {
        var i := ChildAbove(t, p, q);
        BelowParent(t, u, t.kids[p][a]);
        BelowParent(t, v, t.kids[p][b]);
        BelowTrans(t, u, p, t.kids[q][i]);
        BelowTrans(t, v, p, t.kids[q][i]);
        OneChild(t, q, i, d, u);
        OneChild(t, q, i, c, v);
      }
    }
  }

  /** No two objects precede each other, and none itself: every object is visited once. */
  lemma PrecedesOnce(t: Shape, u: int, v: int)
    requires Parents(t) && 0 <= u < |t.par| && 0 <= v < |t.par| && Precedes(t, u, v)
    requires forall s :: 0 <= s < |t.kids| ==> Distinct(t.kids[s])
    ensures u != v && !Precedes(t, v, u)
  {
    hide Below, Parents, Branch;
    if p, a, b :| Branch(t, p, a, b, u, v) {
      BranchApart(t, p, a, b, u, v);
      if q, c, d :| Branch(t, q, c, d, v, u) {
        BranchesLine(t, p, a, b, q, c, d, u, v);
        if Below(t, p, q) {
          NoCross(t, p, a, b, q, c, d, u, v);
        } else {
          NoCross(t, q, c, d, p, a, b, v, u);
        }
      }
    } else {
      if Below(t, u, v) {
        BelowRank(t, u, v);
        BelowRank(t, v, u);
      }
      if q, c, d :| Branch(t, q, c, d, v, u) {
        BranchApart(t, q, c, d, v, u);
      }
    }
  }

  // Objects below different children of an object are not one below the other.
  lemma BranchApart(t: Shape, p: int, a: int, b: int, u: int, v: int)
    requires Parents(t) && 0 <= u < |t.par| && 0 <= v < |t.par| && Branch(t, p, a, b, u, v)
    requires forall s :: 0 <= s < |t.kids| ==> Distinct(t.kids[s])
    ensures u != v && !Below(t, u, v) && !Below(t, v, u)
  {
    assert ChildOk(t, p, t.kids[p][a]) && ChildOk(t, p, t.kids[p][b]);
    if u == v {
      OneChild(t, p, a, b, u);
    } else if Below(t, u, v) {
      BelowTrans(t, u, v, t.kids[p][b]);
      OneChild(t, p, a, b, u);
    } else if Below(t, v, u) {
      BelowTrans(t, v, u, t.kids[p][a]);
      OneChild(t, p, a, b, v);
    }
  }

  lemma BranchesLine(t: Shape, p: int, a: int, b: int, q: int, c: int, d: int, u: int, v: int)
    requires Parents(t) && 0 <= u < |t.par| && 0 <= v < |t.par|
    requires Branch(t, p, a, b, u, v) && Branch(t, q, c, d, v, u)
    ensures 0 <= p < |t.par| && 0 <= q < |t.par| && (Below(t, p, q) || Below(t, q, p))
  {
    assert ChildOk(t, p, t.kids[p][a]) && ChildOk(t, q, t.kids[q][d]);
    BelowParent(t, u, t.kids[p][a]);
    BelowParent(t, u, t.kids[q][d]);
    OneLine(t, u, p, q);
  }

  // ---- a walk that ends at an object, and the last hit ----

  lemma {:induction false} UpToIs(vs: seq<Visit>, e: int)
    ensures UpTo(vs, e) <= vs && forall j :: 0 <= j < |UpTo(vs, e)| ==> vs[j].obj != e
    ensures |UpTo(vs, e)| < |vs| ==> vs[|UpTo(vs, e)|].obj == e
    decreases |vs|
  {
    if vs != [] && vs[0].obj != e {
      UpToIs(vs[1..], e);
      assert vs == [vs[0]] + vs[1..];
    }
  }

  // Visited from s on, down to some levels, before object e if that is visited too.
  ghost predicate Meets(k: Looks, t: Shape, v: int, s: int, depth: int, e: int)
    requires Complete(k, t) && 0 <= v < |t.par|
  {
    Reached(k, t, v, s, depth) && (0 <= e < |t.par| && Reached(k, t, e, s, depth) ==> Precedes(t, v, e))
  }

  /** A walk up to object e visits exactly the objects it reaches before e, each once and in order. */
  lemma WalkIff(k: Looks, t: Shape, s: int, px: int, py: int, depth: int, e: int)
    requires Complete(k, t) && 0 <= s < |t.par| && forall p :: 0 <= p < |t.kids| ==> Distinct(t.kids[p])
    ensures InTree(t, UpTo(Pre(k, t, s, px, py, Max(depth, 0)), e))
    ensures
      var log := UpTo(Pre(k, t, s, px, py, Max(depth, 0)), e);
      && (forall v :: 0 <= v < |t.par| ==> (InWalk(log, v) <==> Meets(k, t, v, s, depth, e)))
      && forall i, j :: 0 <= i < j < |log| ==> Precedes(t, log[i].obj, log[j].obj)
  {
    hide Pre, UpTo, Reached, Precedes, Below;
    var vs := Pre(k, t, s, px, py, Max(depth, 0));
    var log := UpTo(vs, e);
    UpToIs(vs, e);
    VisitsIn(k, t, s, px, py, Max(depth, 0));
    forall i, j | 0 <= i < j < |vs|
      ensures Precedes(t, vs[i].obj, vs[j].obj) && !Precedes(t, vs[j].obj, vs[i].obj) && vs[i].obj != vs[j].obj
    {
      VisitOrder(k, t, s, px, py, Max(depth, 0), i, j);
      PrecedesOnce(t, vs[i].obj, vs[j].obj);
    }
    if 0 <= e < |t.par| {
      VisitedIff(k, t, s, px, py, depth, e);
      NotItself(t, e);
    }
    forall v | 0 <= v < |t.par|
      ensures InWalk(log, v) <==> Meets(k, t, v, s, depth, e)
    {
      VisitedIff(k, t, s, px, py, depth, v);
      if InWalk(log, v) {
        var j :| 0 <= j < |log| && log[j].obj == v;
        assert vs[j].obj == v;
      }
      if InWalk(vs, v) {
        var j :| 0 <= j < |vs| && vs[j].obj == v;
        assert j < |log| ==> log[j].obj == v;
      }
    }
  }

  /** Every visit is at the start offset plus those of the objects above it, from the start object on. */
  lemma WalkOffsets(k: Looks, t: Shape, s: int, px: int, py: int, depth: int, e: int)
    requires Complete(k, t) && 0 <= s < |t.par|
    ensures
      var log := UpTo(Pre(k, t, s, px, py, Max(depth, 0)), e);
      forall j :: 0 <= j < |log| ==>
        && 0 <= log[j].obj < |t.par|
        && log[j].x == px + Total(k.x, t, log[j].obj) - Above(k.x, t, s)
        && log[j].y == py + Total(k.y, t, log[j].obj) - Above(k.y, t, s)
  {
    var vs := Pre(k, t, s, px, py, Max(depth, 0));
    var log := UpTo(vs, e);
    UpToIs(vs, e);
    hide Pre, UpTo, Total, Above;
    forall j | 0 <= j < |log|
      ensures
        && 0 <= log[j].obj < |t.par|
        && log[j].x == px + Total(k.x, t, log[j].obj) - Above(k.x, t, s)
        && log[j].y == py + Total(k.y, t, log[j].obj) - Above(k.y, t, s)
    {
      VisitOffsets(k, t, s, px, py, Max(depth, 0), j);
      assert log[j] == vs[j];
    }
  }

  lemma NoParent(t: Shape)
    requires Parents(t) && |t.par| > 0
    ensures t.par[ROOT] == NIL
  {
    assert forall p, i :: 0 <= p < |t.kids| && 0 <= i < |t.kids[p]| ==> ChildOk(t, p, t.kids[p][i]);
  }

  /** A walk from the root at no offset visits every object where ob_offset says it is. */
  lemma RootOffsets(k: Looks, t: Shape, d: nat, j: nat)
    requires Complete(k, t) && |t.par| > 0 && j < |Pre(k, t, ROOT, 0, 0, d)|
    ensures
      var v := Pre(k, t, ROOT, 0, 0, d)[j];
      0 <= v.obj < |t.par| && v.x == Total(k.x, t, v.obj) && v.y == Total(k.y, t, v.obj)
  {
    VisitOffsets(k, t, ROOT, 0, 0, d, j);
    NoParent(t);
    hide Pre;
    assert Total(k.x, t, ROOT) == k.x[ROOT] && Total(k.y, t, ROOT) == k.y[ROOT];
  }

  lemma NotItself(t: Shape, v: int)
    requires Parents(t) && 0 <= v < |t.par| && forall p :: 0 <= p < |t.kids| ==> Distinct(t.kids[p])
    ensures !Precedes(t, v, v)
  {
    if Precedes(t, v, v) {
      PrecedesOnce(t, v, v);
    }
  }

  // b is reached, and hit along with all above it up to s; every other such object precedes it. NIL if there is none.
  ghost predicate LastReached(k: Looks, t: Shape, s: int, depth: int, b: int, mx: int, my: int)
    requires Complete(k, t)
  {
    if b == NIL then forall v :: 0 <= v < |t.par| && Reached(k, t, v, s, depth) ==> !HitUpTo(k, t, v, s, mx, my)
    else
      && 0 <= b < |t.par| && Reached(k, t, b, s, depth) && HitUpTo(k, t, b, s, mx, my)
      && forall v :: 0 <= v < |t.par| && v != b && Reached(k, t, v, s, depth) && HitUpTo(k, t, v, s, mx, my) ==>
        Precedes(t, v, b)
  }

  /** The object found is the last of those that the walk visits and the point hits. */
  lemma FoundIsLast(k: Looks, t: Shape, s: int, d: nat, mx: int, my: int)
    requires Complete(k, t) && 0 <= s < |t.par|
    ensures LastReached(k, t, s, d, Found(k, t, s, d, mx, my), mx, my)
  {
    hide Pre, Reached, Precedes, Below, HitUpTo, Found;
    var vs, b := Pre(k, t, s, 0, 0, d), Found(k, t, s, d, mx, my);
    FoundIsLastHit(k, t, s, 0, 0, d, mx, my);
    forall v | 0 <= v < |t.par|
      ensures InWalk(vs, v) <==> Reached(k, t, v, s, d)
    {
      VisitedIff(k, t, s, 0, 0, d, v);
    }
    if b != NIL {
      var m :| 0 <= m < |vs| && vs[m].obj == b && HitUpTo(k, t, b, s, mx, my)
               && forall j :: m < j < |vs| ==> !HitUpTo(k, t, vs[j].obj, s, mx, my);
      forall v | 0 <= v < |t.par| && v != b && InWalk(vs, v) && HitUpTo(k, t, v, s, mx, my)
        ensures Precedes(t, v, b)
      {
        var j :| 0 <= j < |vs| && vs[j].obj == v;
        VisitOrder(k, t, s, 0, 0, d, j, m);
      }
    }
  }
}
