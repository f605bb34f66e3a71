/** What a walk over an object tree visits, and which object lies under a point. */
module TreeWalk {
  import opened Chains
  import opened Geometry
  import opened TreeShape

  // Position, size and the HIDETREE flag of all objects.
  datatype Looks = Looks(x: seq<int>, y: seq<int>, w: seq<int>, h: seq<int>, hidden: seq<bool>)

  ghost predicate Complete(k: Looks, t: Shape) {
    && |k.x| == |k.y| == |k.w| == |k.h| == |k.hidden| == |t.kids|
    && Parents(t)
  }

  datatype Visit = Visit(obj: int, x: int, y: int)

  // Object o at an offset and the objects below it down to d levels; children of hidden objects are skipped.
  ghost function Pre(k: Looks, t: Shape, o: int, px: int, py: int, d: nat): (v: seq<Visit>)
    requires Complete(k, t) && 0 <= o < |t.kids|
    ensures v != [] && v[0].obj == o
    decreases d, 0
  {
    var x, y := px + k.x[o], py + k.y[o];
    [Visit(o, x, y)] + if k.hidden[o] || d == 0 then [] else PreAll(k, t, o, 0, x, y, d - 1)
  }

  // The children of p from position i on.
  ghost function PreAll(k: Looks, t: Shape, p: int, i: nat, px: int, py: int, d: nat): (v: seq<Visit>)
    requires Complete(k, t) && 0 <= p < |t.kids| && i <= |t.kids[p]|
    decreases d, |t.kids[p]| - i + 1
  {
    if i == |t.kids[p]| then []
    else
      assert ChildOk(t, p, t.kids[p][i]);
      Pre(k, t, t.kids[p][i], px, py, d) + PreAll(k, t, p, i + 1, px, py, d)
  }

  // The visits before object e.
  ghost function UpTo(v: seq<Visit>, e: int): seq<Visit> {
    if v == [] || v[0].obj == e then [] else [v[0]] + UpTo(v[1..], e)
  }

  lemma {:induction false} UpToSplit(a: seq<Visit>, b: seq<Visit>, e: int)
    requires (forall i :: 0 <= i < |a| ==> a[i].obj != e) && (b == [] || b[0].obj == e)
    ensures UpTo(a + b, e) == a
    decreases |a|
  {
    if a == [] {
      assert a + b == b;
    } else {
      UpToSplit(a[1..], b, e);
      assert (a + b)[1..] == a[1..] + b;
    }
  }

  // ---- offsets ----

  function Highest(rank: seq<int>): int {
    if rank == [] then 0 else Max(rank[|rank| - 1], Highest(rank[..|rank| - 1]))
  }

  lemma {:induction false} HighestIs(rank: seq<int>, i: nat)
    requires i < |rank|
    ensures rank[i] <= Highest(rank)
    decreases |rank|
  {
    if i < |rank| - 1 {
      HighestIs(rank[..|rank| - 1], i);
    }
  }

  lemma ParentRank(t: Shape, o: int)
    requires Parents(t) && 0 <= o < |t.par| && t.par[o] != NIL
    ensures 0 <= t.par[o] < |t.par| && t.rank[o] < t.rank[t.par[o]] <= Highest(t.rank)
  {
    var i := PlaceOf(t, o);
    assert ChildOk(t, t.par[o], t.kids[t.par[o]][i]);
    HighestIs(t.rank, t.par[o]);
  }

  // The sum of an object's offset and those of all objects above it.
  ghost function Total(xs: seq<int>, t: Shape, o: int): int
    requires Parents(t) && |xs| == |t.par| && 0 <= o < |t.par|
    decreases Highest(t.rank) - t.rank[o]
  {
    if t.par[o] == NIL then xs[o]
    else
      ParentRank(t, o);
      Total(xs, t, t.par[o]) + xs[o]
  }

  // The offset at which the children of o's parent are placed.
  ghost function Above(xs: seq<int>, t: Shape, o: int): int
    requires Parents(t) && |xs| == |t.par| && 0 <= o < |t.par|
  {
    Total(xs, t, o) - xs[o]
  }

  /** Every object is visited at the start offset plus the offsets of the objects above it, up to the start object. */
  lemma {:induction false} VisitOffsets(k: Looks, t: Shape, o: int, px: int, py: int, d: nat, j: nat)
    requires Complete(k, t) && 0 <= o < |t.kids| && j < |Pre(k, t, o, px, py, d)|
    ensures
      var v := Pre(k, t, o, px, py, d)[j];
      && 0 <= v.obj < |t.kids|
      && v.x == px + Total(k.x, t, v.obj) - Above(k.x, t, o)
      && v.y == py + Total(k.y, t, v.obj) - Above(k.y, t, o)
    decreases d, 0
  {
    if j > 0 {
      AllOffsets(k, t, o, 0, px + k.x[o], py + k.y[o], d - 1, j - 1);
    }
  }

  lemma {:induction false} AllOffsets(k: Looks, t: Shape, p: int, i: nat, px: int, py: int, d: nat, j: nat)
    requires Complete(k, t) && 0 <= p < |t.kids| && i <= |t.kids[p]| && j < |PreAll(k, t, p, i, px, py, d)|
    ensures
      var v := PreAll(k, t, p, i, px, py, d)[j];
      && 0 <= v.obj < |t.kids|
      && v.x == px + Total(k.x, t, v.obj) - Total(k.x, t, p)
      && v.y == py + Total(k.y, t, v.obj) - Total(k.y, t, p)
    decreases d, |t.kids[p]| - i + 1
  {
    var c := t.kids[p][i];
    assert ChildOk(t, p, c);
    var first := Pre(k, t, c, px, py, d);
    if j < |first| {
      VisitOffsets(k, t, c, px, py, d, j);
    } else {
      AllOffsets(k, t, p, i + 1, px, py, d, j - |first|);
    }
  }

  // ---- below ----

  // v is s or lies below it.
  ghost predicate Below(t: Shape, v: int, s: int)
    requires Parents(t) && 0 <= v < |t.par|
    decreases Highest(t.rank) - t.rank[v]
  {
    v == s || (t.par[v] != NIL && (ParentRank(t, v); Below(t, t.par[v], s)))
  }

  lemma {:induction false} BelowRank(t: Shape, v: int, s: int)
    requires Parents(t) && 0 <= v < |t.par| && 0 <= s < |t.par| && Below(t, v, s)
    ensures v == s || t.rank[v] < t.rank[s]
    decreases Highest(t.rank) - t.rank[v]
  {
    if v != s {
      ParentRank(t, v);
      BelowRank(t, t.par[v], s);
    }
  }

  lemma {:induction false} BelowParent(t: Shape, v: int, c: int)
    requires Parents(t) && 0 <= v < |t.par| && 0 <= c < |t.par| && Below(t, v, c) && t.par[c] != NIL
    ensures Below(t, v, t.par[c])
    decreases Highest(t.rank) - t.rank[v]
  {
    if v != c {
      ParentRank(t, v);
      BelowParent(t, t.par[v], c);
    } else {
      ParentRank(t, v);
      assert Below(t, t.par[c], t.par[c]);
    }
  }

  /** Only objects below the start object are visited. */
  lemma {:induction false} VisitsBelow(k: Looks, t: Shape, o: int, px: int, py: int, d: nat, j: nat)
    requires Complete(k, t) && 0 <= o < |t.kids| && j < |Pre(k, t, o, px, py, d)|
    ensures 0 <= Pre(k, t, o, px, py, d)[j].obj < |t.par| && Below(t, Pre(k, t, o, px, py, d)[j].obj, o)
    decreases d, 0
  {
    if j > 0 {
      AllBelow(k, t, o, 0, px + k.x[o], py + k.y[o], d - 1, j - 1);
    }
  }

  lemma {:induction false} AllBelow(k: Looks, t: Shape, p: int, i: nat, px: int, py: int, d: nat, j: nat)
    requires Complete(k, t) && 0 <= p < |t.kids| && i <= |t.kids[p]| && j < |PreAll(k, t, p, i, px, py, d)|
    ensures
      var v := PreAll(k, t, p, i, px, py, d)[j];
      0 <= v.obj < |t.par| && Below(t, v.obj, p)
      && exists m :: i <= m < |t.kids[p]| && Below(t, v.obj, t.kids[p][m])
    decreases d, |t.kids[p]| - i + 1
  {
    var c := t.kids[p][i];
    assert ChildOk(t, p, c);
    var first := Pre(k, t, c, px, py, d);
    if j < |first| {
      VisitsBelow(k, t, c, px, py, d, j);
      BelowParent(t, first[j].obj, c);
    } else {
      AllBelow(k, t, p, i + 1, px, py, d, j - |first|);
    }
  }

  /** What follows a child in the thread is no object below it: a walk of one object is never cut short. */
  lemma NextNotBelow(k: Looks, l: Links, t: Shape, n: nat, o: int, px: int, py: int, d: nat)
    requires Threaded(l, t, n) && Complete(k, t) && 0 <= o < n && t.par[o] != NIL
    ensures UpTo(Pre(k, t, o, px, py, d), l.next[o]) == Pre(k, t, o, px, py, d)
  {
    var v, e := Pre(k, t, o, px, py, d), l.next[o];
    var i := PlaceOf(t, o);
    KidAt(l, t, n, t.par[o], i);
    if i + 1 < |t.kids[t.par[o]]| {
      KidAt(l, t, n, t.par[o], i + 1);
    }
    forall j | 0 <= j < |v|
      ensures v[j].obj != e
    {
      VisitsBelow(k, t, o, px, py, d, j);
      if v[j].obj == e {
        BelowRank(t, e, o);
        if e != t.par[o] {
          ParentRank(t, e);
          BelowRank(t, t.par[e], o);
        }
      }
    }
    UpToSplit(v, [], e);
    assert v + [] == v;
  }

  /** A walk without an end object is never cut short either. */
  lemma NoEnd(k: Looks, t: Shape, o: int, px: int, py: int, d: nat)
    requires Complete(k, t) && 0 <= o < |t.kids|
    ensures UpTo(Pre(k, t, o, px, py, d), NIL) == Pre(k, t, o, px, py, d)
  {
    var v := Pre(k, t, o, px, py, d);
    forall j | 0 <= j < |v|
      ensures v[j].obj != NIL
    {
      VisitsBelow(k, t, o, px, py, d, j);
    }
    UpToSplit(v, [], NIL);
    assert v + [] == v;
  }

  /** A flat tree is walked as its root and then the children in their order. */
  lemma FlatWalk(k: Looks, t: Shape, p: int, px: int, py: int, d: nat)
    requires Complete(k, t) && 0 <= p < |t.kids| && !k.hidden[p] && d > 0
    requires forall i :: 0 <= i < |t.kids[p]| ==> 0 <= t.kids[p][i] < |t.kids| && t.kids[t.kids[p][i]] == []
    ensures |Pre(k, t, p, px, py, d)| == 1 + |t.kids[p]|
    ensures forall j :: 0 <= j < |t.kids[p]| ==> Pre(k, t, p, px, py, d)[j + 1].obj == t.kids[p][j]
  {
    FlatRest(k, t, p, 0, px + k.x[p], py + k.y[p], d - 1);
  }

  lemma {:induction false} FlatRest(k: Looks, t: Shape, p: int, i: nat, px: int, py: int, d: nat)
    requires Complete(k, t) && 0 <= p < |t.kids| && i <= |t.kids[p]|
    requires forall j :: 0 <= j < |t.kids[p]| ==> 0 <= t.kids[p][j] < |t.kids| && t.kids[t.kids[p][j]] == []
    ensures |PreAll(k, t, p, i, px, py, d)| == |t.kids[p]| - i
    ensures forall j :: i <= j < |t.kids[p]| ==> PreAll(k, t, p, i, px, py, d)[j - i].obj == t.kids[p][j]
    decreases |t.kids[p]| - i
  {
    if i < |t.kids[p]| {
      var c := t.kids[p][i];
      assert ChildOk(t, p, c);
      var x, y := px + k.x[c], py + k.y[c];
      assert d > 0 ==> PreAll(k, t, c, 0, x, y, d - 1) == [];
      assert Pre(k, t, c, px, py, d) == [Visit(c, x, y)];
      FlatRest(k, t, p, i + 1, px, py, d);
    }
  }

  // ---- hit testing ----

  // The object is visible and the point lies in it.
  ghost predicate UnderPoint(k: Looks, t: Shape, o: int, mx: int, my: int)
    requires Complete(k, t) && 0 <= o < |t.kids|
  {
    !k.hidden[o] && Contains(Rect(Total(k.x, t, o), Total(k.y, t, o), k.w[o], k.h[o]), mx, my)
  }

  // So are all objects above it up to s.
  ghost predicate HitUpTo(k: Looks, t: Shape, v: int, s: int, mx: int, my: int)
    requires Complete(k, t) && 0 <= v < |t.kids|
    decreases Highest(t.rank) - t.rank[v]
  {
    UnderPoint(k, t, v, mx, my)
      && (v == s || (t.par[v] != NIL && (ParentRank(t, v); HitUpTo(k, t, t.par[v], s, mx, my))))
  }

  lemma {:induction false} HitStep(k: Looks, t: Shape, v: int, c: int, mx: int, my: int)
    requires Complete(k, t) && 0 <= v < |t.kids| && 0 <= c < |t.kids| && Below(t, v, c) && t.par[c] != NIL
    ensures 0 <= t.par[c] < |t.kids|
    ensures HitUpTo(k, t, v, t.par[c], mx, my) <==> HitUpTo(k, t, v, c, mx, my) && UnderPoint(k, t, t.par[c], mx, my)
    decreases Highest(t.rank) - t.rank[v]
  {
    ParentRank(t, c);
    BelowRank(t, v, c);
    if v != c {
      ParentRank(t, v);
      HitStep(k, t, t.par[v], c, mx, my);
    } else {
      assert HitUpTo(k, t, t.par[c], t.par[c], mx, my) == UnderPoint(k, t, t.par[c], mx, my);
    }
  }

  // The object ob_find settles on: the last child hit, and so on downwards.
  ghost function Found(k: Looks, t: Shape, o: int, d: nat, mx: int, my: int): int
    requires Complete(k, t) && 0 <= o < |t.kids|
    decreases d, 0
  {
    if !UnderPoint(k, t, o, mx, my) then NIL
    else if d == 0 then o
    else
      var b := FoundAll(k, t, o, 0, d - 1, mx, my);
      if b == NIL then o else b
  }

  // Among the children of p from position i on.
  ghost function FoundAll(k: Looks, t: Shape, p: int, i: nat, d: nat, mx: int, my: int): int
    requires Complete(k, t) && 0 <= p < |t.kids| && i <= |t.kids[p]|
    decreases d, |t.kids[p]| - i + 1
  {
    if i == |t.kids[p]| then NIL
    else
      assert ChildOk(t, p, t.kids[p][i]);
      var b := FoundAll(k, t, p, i + 1, d, mx, my);
      if b != NIL then b else Found(k, t, t.kids[p][i], d, mx, my)
  }

  lemma {:induction false} FoundFromLater(k: Looks, t: Shape, p: int, i: nat, d: nat, mx: int, my: int)
    requires Complete(k, t) && 0 <= p < |t.kids| && i <= |t.kids[p]|
    requires FoundAll(k, t, p, i, d, mx, my) != NIL
    ensures FoundAll(k, t, p, 0, d, mx, my) == FoundAll(k, t, p, i, d, mx, my)
    decreases i
  {
    if i > 0 {
      FoundFromLater(k, t, p, i - 1, d, mx, my);
    }
  }

  // b is the last visit that is hit along with everything above it up to s, or NIL if there is none.
  ghost predicate LastHit(k: Looks, t: Shape, v: seq<Visit>, s: int, b: int, mx: int, my: int)
    requires Complete(k, t) && forall j :: 0 <= j < |v| ==> 0 <= v[j].obj < |t.kids|
  {
    if b == NIL then forall j :: 0 <= j < |v| ==> !HitUpTo(k, t, v[j].obj, s, mx, my)
    else exists m :: 0 <= m < |v| && v[m].obj == b && HitUpTo(k, t, b, s, mx, my)
                     && forall j :: m < j < |v| ==> !HitUpTo(k, t, v[j].obj, s, mx, my)
  }

  ghost predicate InTree(t: Shape, v: seq<Visit>) {
    forall j :: 0 <= j < |v| ==> 0 <= v[j].obj < |t.kids|
  }

  lemma LastHitOf(k: Looks, t: Shape, v: seq<Visit>, s: int, b: int, m: nat, mx: int, my: int)
    requires Complete(k, t) && InTree(t, v) && m < |v| && v[m].obj == b && b != NIL
    requires HitUpTo(k, t, b, s, mx, my) && forall j :: m < j < |v| ==> !HitUpTo(k, t, v[j].obj, s, mx, my)
    ensures LastHit(k, t, v, s, b, mx, my)
  {
  }

  lemma JoinHits(k: Looks, t: Shape, v: seq<Visit>, u: seq<Visit>, s: int, b: int, c: int, mx: int, my: int)
    requires Complete(k, t) && InTree(t, v) && InTree(t, u)
    requires LastHit(k, t, v, s, b, mx, my) && LastHit(k, t, u, s, c, mx, my)
    ensures InTree(t, v + u) && LastHit(k, t, v + u, s, if c != NIL then c else b, mx, my)
  {
    var w := v + u;
    if c != NIL {
      var m :| 0 <= m < |u| && u[m].obj == c && HitUpTo(k, t, c, s, mx, my)
               && forall j :: m < j < |u| ==> !HitUpTo(k, t, u[j].obj, s, mx, my);
      LastHitOf(k, t, w, s, c, |v| + m, mx, my);
    } else if b != NIL {
      var m :| 0 <= m < |v| && v[m].obj == b && HitUpTo(k, t, b, s, mx, my)
               && forall j :: m < j < |v| ==> !HitUpTo(k, t, v[j].obj, s, mx, my);
      LastHitOf(k, t, w, s, b, m, mx, my);
    }
  }

  lemma LiftHits(k: Looks, t: Shape, v: seq<Visit>, c: int, b: int, mx: int, my: int)
    requires Complete(k, t) && InTree(t, v) && 0 <= c < |t.kids| && t.par[c] != NIL
    requires forall j :: 0 <= j < |v| ==> Below(t, v[j].obj, c)
    requires LastHit(k, t, v, c, b, mx, my)
    ensures 0 <= t.par[c] < |t.kids|
    ensures UnderPoint(k, t, t.par[c], mx, my) ==> LastHit(k, t, v, t.par[c], b, mx, my)
  {
    ParentRank(t, c);
    if UnderPoint(k, t, t.par[c], mx, my) {
      forall j | 0 <= j < |v|
        ensures HitUpTo(k, t, v[j].obj, t.par[c], mx, my) == HitUpTo(k, t, v[j].obj, c, mx, my)
      {
        HitStep(k, t, v[j].obj, c, mx, my);
      }
      hide HitUpTo;
      if b != NIL {
        var m :| 0 <= m < |v| && v[m].obj == b && HitUpTo(k, t, b, c, mx, my)
                 && forall j :: m < j < |v| ==> !HitUpTo(k, t, v[j].obj, c, mx, my);
        LastHitOf(k, t, v, t.par[c], b, m, mx, my);
      }
    }
  }

  lemma VisitsIn(k: Looks, t: Shape, o: int, px: int, py: int, d: nat)
    requires Complete(k, t) && 0 <= o < |t.kids|
    ensures InTree(t, Pre(k, t, o, px, py, d))
    ensures forall j :: 0 <= j < |Pre(k, t, o, px, py, d)| ==> Below(t, Pre(k, t, o, px, py, d)[j].obj, o)
  {
    forall j | 0 <= j < |Pre(k, t, o, px, py, d)|
      ensures 0 <= Pre(k, t, o, px, py, d)[j].obj < |t.kids| && Below(t, Pre(k, t, o, px, py, d)[j].obj, o)
    {
      VisitsBelow(k, t, o, px, py, d, j);
    }
  }

  lemma AllIn(k: Looks, t: Shape, p: int, i: nat, px: int, py: int, d: nat)
    requires Complete(k, t) && 0 <= p < |t.kids| && i <= |t.kids[p]|
    ensures InTree(t, PreAll(k, t, p, i, px, py, d))
    ensures forall j :: 0 <= j < |PreAll(k, t, p, i, px, py, d)| ==>
      Below(t, PreAll(k, t, p, i, px, py, d)[j].obj, p) && PreAll(k, t, p, i, px, py, d)[j].obj != p
  {
    forall j | 0 <= j < |PreAll(k, t, p, i, px, py, d)|
      ensures
        var v := PreAll(k, t, p, i, px, py, d)[j].obj;
        0 <= v < |t.kids| && Below(t, v, p) && v != p
    {
      AllBelow(k, t, p, i, px, py, d, j);
      var v := PreAll(k, t, p, i, px, py, d)[j].obj;
      var m :| i <= m < |t.kids[p]| && Below(t, v, t.kids[p][m]);
      assert ChildOk(t, p, t.kids[p][m]);
      BelowRank(t, v, t.kids[p][m]);
    }
  }

  /**
   What ob_find settles on is the last object of the walk, with the same limit of depth, that the point hits along
   with every object above it up to the start; there is none exactly when it is NIL.
   */
  lemma {:induction false} FoundIsLastHit(k: Looks, t: Shape, o: int, px: int, py: int, d: nat, mx: int, my: int)
    requires Complete(k, t) && 0 <= o < |t.kids|
    ensures InTree(t, Pre(k, t, o, px, py, d))
    ensures LastHit(k, t, Pre(k, t, o, px, py, d), o, Found(k, t, o, d, mx, my), mx, my)
    decreases d, 0
  {
    hide Below, Total, LastHit;
    VisitsIn(k, t, o, px, py, d);
    var v := Pre(k, t, o, px, py, d);
    var x, y := px + k.x[o], py + k.y[o];
    HitSelf(k, t, o, mx, my);
    if !UnderPoint(k, t, o, mx, my) {
      NoHit(k, t, v, o, mx, my);
    } else if k.hidden[o] || d == 0 {
      LastHitOf(k, t, v, o, o, 0, mx, my);
    } else {
      AllLast(k, t, o, 0, x, y, d - 1, mx, my);
      hide HitUpTo, UnderPoint;
      LastHitOf(k, t, [Visit(o, x, y)], o, o, 0, mx, my);
      JoinHits(k, t, [Visit(o, x, y)], PreAll(k, t, o, 0, x, y, d - 1), o, o, FoundAll(k, t, o, 0, d - 1, mx, my),
               mx, my);
    }
  }

  lemma HitSelf(k: Looks, t: Shape, o: int, mx: int, my: int)
    requires Complete(k, t) && 0 <= o < |t.kids|
    ensures HitUpTo(k, t, o, o, mx, my) == UnderPoint(k, t, o, mx, my)
    ensures k.hidden[o] ==> !UnderPoint(k, t, o, mx, my)
  {
  }

  lemma NoHit(k: Looks, t: Shape, v: seq<Visit>, o: int, mx: int, my: int)
    requires Complete(k, t) && 0 <= o < |t.kids| && InTree(t, v) && !UnderPoint(k, t, o, mx, my)
    ensures LastHit(k, t, v, o, NIL, mx, my)
  {
    hide UnderPoint;
    forall j | 0 <= j < |v|
      ensures !HitUpTo(k, t, v[j].obj, o, mx, my)
    {
      if HitUpTo(k, t, v[j].obj, o, mx, my) {
        HitNeedsTop(k, t, v[j].obj, o, mx, my);
      }
    }
  }

  lemma {:induction false} HitNeedsTop(k: Looks, t: Shape, v: int, s: int, mx: int, my: int)
    requires Complete(k, t) && 0 <= v < |t.kids| && 0 <= s < |t.kids| && HitUpTo(k, t, v, s, mx, my)
    ensures UnderPoint(k, t, s, mx, my)
    decreases Highest(t.rank) - t.rank[v]
  {
    if v != s {
      ParentRank(t, v);
      HitNeedsTop(k, t, t.par[v], s, mx, my);
    }
  }

  lemma {:induction false} AllLast(k: Looks, t: Shape, p: int, i: nat, px: int, py: int, d: nat, mx: int, my: int)
    requires Complete(k, t) && 0 <= p < |t.kids| && i <= |t.kids[p]| && UnderPoint(k, t, p, mx, my)
    ensures InTree(t, PreAll(k, t, p, i, px, py, d))
    ensures LastHit(k, t, PreAll(k, t, p, i, px, py, d), p, FoundAll(k, t, p, i, d, mx, my), mx, my)
    decreases d, |t.kids[p]| - i + 1
  {
    AllIn(k, t, p, i, px, py, d);
    if i < |t.kids[p]| {
      var c := t.kids[p][i];
      assert ChildOk(t, p, c);
      FoundIsLastHit(k, t, c, px, py, d, mx, my);
      AllLast(k, t, p, i + 1, px, py, d, mx, my);
      VisitsIn(k, t, c, px, py, d);
      var v, u := Pre(k, t, c, px, py, d), PreAll(k, t, p, i + 1, px, py, d);
      LiftHits(k, t, v, c, Found(k, t, c, d, mx, my), mx, my);
      JoinHits(k, t, v, u, p, Found(k, t, c, d, mx, my), FoundAll(k, t, p, i + 1, d, mx, my), mx, my);
    }
  }

  // ---- the state of a walk that keeps no stack ----

  // What is walked: the start offset and the limit of depth.
  datatype Walk = Walk(k: Looks, t: Shape, sx: int, sy: int, lim: nat)

  // path leads from the start object down to the current one, at[j] is the place of path[j] among its siblings.
  ghost predicate Path(w: Walk, path: seq<int>, at: seq<nat>) {
    && Complete(w.k, w.t) && path != [] && |at| == |path| <= w.lim + 1
    && 0 <= path[0] < |w.t.kids|
    && forall j {:trigger at[j]} :: 0 < j < |path| ==> StepDown(w, path[j - 1], path[j], at[j])
  }

  predicate StepDown(w: Walk, p: int, c: int, i: nat) {
    0 <= p < |w.t.kids| && i < |w.t.kids[p]| && c == w.t.kids[p][i]
  }

  lemma PathAt(w: Walk, path: seq<int>, at: seq<nat>, j: nat)
    requires Path(w, path, at) && j < |path|
    ensures 0 <= path[j] < |w.t.kids| && |at| == |path| <= w.lim + 1 && Complete(w.k, w.t)
    ensures j > 0 ==>
      && 0 <= path[j - 1] < |w.t.kids| && at[j] < |w.t.kids[path[j - 1]]| && path[j] == w.t.kids[path[j - 1]][at[j]]
      && w.t.par[path[j]] == path[j - 1] && path[j] != ROOT && w.t.rank[path[j]] < w.t.rank[path[j - 1]]
  {
    if j > 0 {
      assert StepDown(w, path[j - 1], path[j], at[j]);
      assert ChildOk(w.t, path[j - 1], w.t.kids[path[j - 1]][at[j]]);
    }
  }

  lemma PathUp(w: Walk, path: seq<int>, at: seq<nat>)
    requires Path(w, path, at) && |path| > 1
    ensures Path(w, path[..|path| - 1], at[..|path| - 1])
  {
  }

  lemma PathDown(w: Walk, path: seq<int>, at: seq<nat>)
    requires Path(w, path, at) && |path| <= w.lim
    requires 0 <= path[|path| - 1] < |w.t.kids| && w.t.kids[path[|path| - 1]] != []
    ensures Path(w, path + [w.t.kids[path[|path| - 1]][0]], at + [0])
  {
  }

  lemma PathNext(w: Walk, path: seq<int>, at: seq<nat>)
    requires Path(w, path, at) && |path| > 1
    requires 0 <= path[|path| - 2] < |w.t.kids| && at[|path| - 1] + 1 < |w.t.kids[path[|path| - 2]]|
    ensures
      var n, i := |path| - 1, at[|path| - 1] + 1;
      Path(w, path[n := w.t.kids[path[n - 1]][i]], at[n := i])
  {
  }

  // The offset that the objects of a path add up to.
  ghost function SumAlong(start: int, xs: seq<int>, path: seq<int>): int {
    if path == [] then start
    else SumAlong(start, xs, path[..|path| - 1]) + if 0 <= path[|path| - 1] < |xs| then xs[path[|path| - 1]] else 0
  }

  // The visits still due at the current object.
  ghost function Here(w: Walk, path: seq<int>, at: seq<nat>): seq<Visit>
    requires Path(w, path, at)
  {
    var n := |path| - 1;
    PathAt(w, path, at, n);
    Pre(w.k, w.t, path[n], SumAlong(w.sx, w.k.x, path[..n]), SumAlong(w.sy, w.k.y, path[..n]), w.lim - n)
  }

  // The visits still due after the current object and those below it.
  ghost function Cont(w: Walk, path: seq<int>, at: seq<nat>): seq<Visit>
    requires Path(w, path, at)
    decreases |path|
  {
    var n := |path| - 1;
    if n == 0 then []
    else
      PathAt(w, path, at, n);
      PathUp(w, path, at);
      PreAll(w.k, w.t, path[n - 1], at[n] + 1, SumAlong(w.sx, w.k.x, path[..n]), SumAlong(w.sy, w.k.y, path[..n]),
        w.lim - n)
      + Cont(w, path[..n], at[..n])
  }

  /** Going down to the first child. */
  lemma GoDown(w: Walk, path: seq<int>, at: seq<nat>)
    requires Path(w, path, at) && |path| <= w.lim
    requires
      var o := path[|path| - 1];
      0 <= o < |w.t.kids| && w.t.kids[o] != [] && !w.k.hidden[o]
    ensures
      var n := |path| - 1;
      var path', at' := path + [w.t.kids[path[n]][0]], at + [0];
      && Path(w, path', at')
      && Here(w, path, at) + Cont(w, path, at) ==
         [Visit(path[n], SumAlong(w.sx, w.k.x, path), SumAlong(w.sy, w.k.y, path))]
           + (Here(w, path', at') + Cont(w, path', at'))
  {
    hide Pre, PreAll, Cont, Here, Parents, ChildOk, StepDown;
    PathDown(w, path, at);
    var path' := path + [w.t.kids[path[|path| - 1]][0]];
    assert path'[..|path|] == path;
    HereDown(w, path, at, path', at + [0]);
    ContDown(w, path, at);
  }

  // An object whose children are visited: the object, its first child, the other children.
  lemma HereDown(w: Walk, path: seq<int>, at: seq<nat>, path': seq<int>, at': seq<nat>)
    requires Path(w, path, at) && |path| <= w.lim && Path(w, path', at')
    requires |path'| == |path| + 1 && path'[..|path|] == path
    requires
      var o := path[|path| - 1];
      0 <= o < |w.t.kids| && w.t.kids[o] != [] && !w.k.hidden[o] && path'[|path|] == w.t.kids[o][0]
    ensures
      var n, x, y := |path| - 1, SumAlong(w.sx, w.k.x, path), SumAlong(w.sy, w.k.y, path);
      && Complete(w.k, w.t)
      && Here(w, path, at) ==
         [Visit(path[n], x, y)] + (Here(w, path', at') + PreAll(w.k, w.t, path[n], 1, x, y, w.lim - n - 1))
  {
    hide Path, Here, Complete, SumAlong, Pre, PreAll;
    HereIs(w, path, at);
    HereIs(w, path', at');
    var n := |path| - 1;
    SumStep(w.sx, w.k.x, path);
    SumStep(w.sy, w.k.y, path);
    assert path'[..|path'| - 1] == path;
    PreDown(w.k, w.t, path[n], SumAlong(w.sx, w.k.x, path[..n]), SumAlong(w.sy, w.k.y, path[..n]), w.lim - n,
      SumAlong(w.sx, w.k.x, path), SumAlong(w.sy, w.k.y, path));
  }

  lemma HereIs(w: Walk, path: seq<int>, at: seq<nat>)
    requires Path(w, path, at)
    ensures
      var n := |path| - 1;
      && Complete(w.k, w.t) && 0 <= n <= w.lim && 0 <= path[n] < |w.t.kids| == |w.k.x| == |w.k.y| == |w.k.hidden|
      && Here(w, path, at)
         == Pre(w.k, w.t, path[n], SumAlong(w.sx, w.k.x, path[..n]), SumAlong(w.sy, w.k.y, path[..n]), w.lim - n)
  {
    PathAt(w, path, at, |path| - 1);
    hide Path, Pre, SumAlong, Parents;
  }

  lemma PreDown(k: Looks, t: Shape, o: int, px: int, py: int, d: nat, x: int, y: int)
    requires Complete(k, t) && 0 <= o < |t.kids| && t.kids[o] != [] && !k.hidden[o] && d > 0
    requires x == px + k.x[o] && y == py + k.y[o]
    ensures 0 <= t.kids[o][0] < |t.kids|
    ensures
      Pre(k, t, o, px, py, d) ==
        [Visit(o, x, y)] + (Pre(k, t, t.kids[o][0], x, y, d - 1) + PreAll(k, t, o, 1, x, y, d - 1))
  {
    assert ChildOk(t, o, t.kids[o][0]);
  }

  lemma ContDown(w: Walk, path: seq<int>, at: seq<nat>)
    requires Path(w, path, at) && |path| <= w.lim
    requires 0 <= path[|path| - 1] < |w.t.kids| && w.t.kids[path[|path| - 1]] != []
    requires Path(w, path + [w.t.kids[path[|path| - 1]][0]], at + [0])
    ensures
      var n, x, y := |path| - 1, SumAlong(w.sx, w.k.x, path), SumAlong(w.sy, w.k.y, path);
      && Complete(w.k, w.t)
      && Cont(w, path + [w.t.kids[path[n]][0]], at + [0])
         == PreAll(w.k, w.t, path[n], 1, x, y, w.lim - n - 1) + Cont(w, path, at)
  {
    hide Parents, ChildOk, StepDown, SumAlong, PreAll;
    var path', at' := path + [w.t.kids[path[|path| - 1]][0]], at + [0];
    assert path'[..|path|] == path && at'[..|path|] == at;
  }

  /** An object without anything below it to visit. */
  lemma NoneBelow(w: Walk, path: seq<int>, at: seq<nat>)
    requires Path(w, path, at)
    requires
      var o := path[|path| - 1];
      0 <= o < |w.t.kids| && (w.t.kids[o] == [] || w.k.hidden[o] || |path| > w.lim)
    ensures Here(w, path, at) == [Visit(path[|path| - 1], SumAlong(w.sx, w.k.x, path), SumAlong(w.sy, w.k.y, path))]
  {
    hide Path, Here, Complete, SumAlong, Pre, PreAll;
    HereIs(w, path, at);
    var n := |path| - 1;
    SumStep(w.sx, w.k.x, path);
    SumStep(w.sy, w.k.y, path);
    PreAlone(w.k, w.t, path[n], SumAlong(w.sx, w.k.x, path[..n]), SumAlong(w.sy, w.k.y, path[..n]), w.lim - n);
  }

  lemma PreAlone(k: Looks, t: Shape, o: int, px: int, py: int, d: nat)
    requires Complete(k, t) && 0 <= o < |t.kids| && (t.kids[o] == [] || k.hidden[o] || d == 0)
    ensures Pre(k, t, o, px, py, d) == [Visit(o, px + k.x[o], py + k.y[o])]
  {
  }

  /** Going on to the next sibling. */
  lemma GoOn(w: Walk, path: seq<int>, at: seq<nat>)
    requires Path(w, path, at) && |path| > 1
    requires 0 <= path[|path| - 2] < |w.t.kids| && at[|path| - 1] + 1 < |w.t.kids[path[|path| - 2]]|
    ensures
      var n, i := |path| - 1, at[|path| - 1] + 1;
      var path', at' := path[n := w.t.kids[path[n - 1]][i]], at[n := i];
      && Path(w, path', at') && Cont(w, path, at) == Here(w, path', at') + Cont(w, path', at')
      && Cont(w, path, at) != [] && Cont(w, path, at)[0].obj == path'[n]
  {
    hide Pre, SumAlong, Parents, ChildOk, StepDown;
    var n, i := |path| - 1, at[|path| - 1] + 1;
    PathNext(w, path, at);
    var path', at' := path[n := w.t.kids[path[n - 1]][i]], at[n := i];
    assert path'[..n] == path[..n] && at'[..n] == at[..n];
  }

  /** Going up from the last sibling. */
  lemma GoUp(w: Walk, path: seq<int>, at: seq<nat>)
    requires Path(w, path, at) && |path| > 1
    requires 0 <= path[|path| - 2] < |w.t.kids| && at[|path| - 1] + 1 == |w.t.kids[path[|path| - 2]]|
    ensures Path(w, path[..|path| - 1], at[..|path| - 1])
    ensures Cont(w, path, at) == Cont(w, path[..|path| - 1], at[..|path| - 1])
  {
    PathUp(w, path, at);
    assert [] + Cont(w, path[..|path| - 1], at[..|path| - 1]) == Cont(w, path[..|path| - 1], at[..|path| - 1]);
  }

  // r bounds the number of levels below every object.
  ghost predicate RanksOk(t: Shape, r: seq<int>) {
    Ranked(t, r) && forall i :: 0 <= i < |r| ==> r[i] >= 0
  }

  lemma RanksFall(t: Shape, r: seq<int>)
    requires Ranked(t, r)
    ensures |r| == |t.kids|
    ensures forall p, i {:trigger t.kids[p][i]} :: 0 <= p < |t.kids| && 0 <= i < |t.kids[p]| ==>
      0 <= t.kids[p][i] < |r| && r[t.kids[p][i]] < r[p]
  {
  }

  // xs holds the offsets that the path adds up to, before each of its objects.
  ghost predicate Sums(start: int, ofs: seq<int>, path: seq<int>, xs: seq<int>) {
    |path| <= |xs| && forall j :: 0 <= j < |path| ==> xs[j] == SumAlong(start, ofs, path[..j])
  }

  // The ranks fall along the path.
  ghost predicate Falling(r: seq<int>, path: seq<int>) {
    path != [] && 0 <= path[0] < |r| && forall j :: 0 <= j < |path| ==>
      0 <= path[j] < |r| && r[path[j]] + j <= r[path[0]]
  }

  // The first n objects of the path were visited.
  ghost predicate Logged(log: seq<Visit>, path: seq<int>, n: nat) {
    n <= |path| && forall j :: 0 <= j < n ==> exists m :: 0 <= m < |log| && log[m].obj == path[j]
  }

  ghost predicate Spared(log: seq<Visit>, last: int) {
    forall j :: 0 <= j < |log| ==> log[j].obj != last
  }

  // A walk from start ends there: behind start in the thread, or at an object it visits. Nothing is behind the root.
  ghost predicate EndsThere(full: seq<Visit>, start: int, behind: int, last: int) {
    start == ROOT || last == behind || !Spared(full, last)
  }

  // The visits still due.
  ghost function Due(w: Walk, path: seq<int>, at: seq<nat>, child: bool): seq<Visit>
    requires Path(w, path, at)
  {
    (if child then Here(w, path, at) else []) + Cont(w, path, at)
  }

  // Where the walk stands: full is what a recursive walk visits, log what was visited so far; child says that the
  // current object is still to be visited.
  ghost predicate Walking(w: Walk, full: seq<Visit>, last: int, path: seq<int>, at: seq<nat>, log: seq<Visit>,
                          child: bool,
                          r: seq<int>, xs: seq<int>, ys: seq<int>)
  {
    && Path(w, path, at) && RanksOk(w.t, r)
    && full == log + Due(w, path, at, child)
    && Spared(log, last) && path != []
    && Logged(log, path, if child then |path| - 1 else |path|)
    && Falling(r, path) && |xs| == |ys| && Sums(w.sx, w.k.x, path, xs) && Sums(w.sy, w.k.y, path, ys)
  }

  lemma WalkStart(w: Walk, start: int, last: int, r: seq<int>, xs: seq<int>, ys: seq<int>)
    requires Complete(w.k, w.t) && 0 <= start < |w.t.kids| && RanksOk(w.t, r)
    requires |xs| == |ys| > 0 && xs[0] == w.sx && ys[0] == w.sy
    ensures Walking(w, Pre(w.k, w.t, start, w.sx, w.sy, w.lim), last, [start], [0], [], true, r, xs, ys)
  {
    var path, at: seq<nat> := [start], [0];
    assert path[..0] == [];
    assert Here(w, path, at) == Pre(w.k, w.t, start, w.sx, w.sy, w.lim);
    assert [] + Due(w, path, at, true) == Here(w, path, at);
  }

  lemma PathShape(w: Walk, path: seq<int>, at: seq<nat>)
    requires Path(w, path, at)
    ensures 0 < |path| == |at| <= w.lim + 1 && Complete(w.k, w.t)
    ensures
      var n := |path| - 1;
      && 0 <= path[n] < |w.t.kids|
      && (n > 0 ==> 0 <= path[n - 1] < |w.t.kids| && at[n] < |w.t.kids[path[n - 1]]|
                    && path[n] == w.t.kids[path[n - 1]][at[n]] && path[n] != ROOT)
    ensures Here(w, path, at) != [] && Here(w, path, at)[0].obj == path[|path| - 1]
    ensures |path| == 1 ==> Cont(w, path, at) == []
  {
    PathAt(w, path, at, |path| - 1);
  }

  lemma WalkFacts(w: Walk, full: seq<Visit>, last: int, path: seq<int>, at: seq<nat>, log: seq<Visit>, child: bool,
                  r: seq<int>, xs: seq<int>, ys: seq<int>)
    requires Walking(w, full, last, path, at, log, child, r, xs, ys)
    ensures 0 < |path| == |at| <= w.lim + 1 && |path| <= |xs| == |ys|
    ensures Complete(w.k, w.t) && 0 <= path[|path| - 1] < |w.t.kids|
    ensures 0 <= path[0] < |r| && |path| <= r[path[0]] + 1
    ensures
      var n := |path| - 1;
      n > 0 ==>
        0 <= path[n - 1] < |w.t.kids| && at[n] < |w.t.kids[path[n - 1]]| && path[n] == w.t.kids[path[n - 1]][at[n]]
                && path[n] != ROOT
    ensures child && path[|path| - 1] == last ==> UpTo(full, last) == log
    ensures |log| <= |full| && (child ==> |log| < |full|)
  {
    hide Path, Here, Cont;
    PathShape(w, path, at);
    var n := |path| - 1;
    assert 0 <= path[n] < |r| && r[path[n]] >= 0;
    if child && path[n] == last {
      UpToSplit(log, Due(w, path, at, true), last);
    }
  }

  lemma SumStep(start: int, xs: seq<int>, path: seq<int>)
    requires path != [] && 0 <= path[|path| - 1] < |xs|
    ensures SumAlong(start, xs, path) == SumAlong(start, xs, path[..|path| - 1]) + xs[path[|path| - 1]]
  {
  }

  lemma SumsVisit(start: int, ofs: seq<int>, path: seq<int>, xs: seq<int>, e: int)
    requires Sums(start, ofs, path, xs) && path != [] && |path| < |xs| && 0 <= path[|path| - 1] < |ofs|
    ensures
      var n := |path| - 1;
      var x := xs[n] + ofs[path[n]];
      x == SumAlong(start, ofs, path) && Sums(start, ofs, path, xs[n + 1 := x])
        && Sums(start, ofs, path + [e], xs[n + 1 := x])
  {
    var n := |path| - 1;
    SumStep(start, ofs, path);
    hide SumAlong;
    var path', x := path + [e], xs[n] + ofs[path[n]];
    var xs' := xs[n + 1 := x];
    forall j | 0 <= j < |path'|
      ensures xs'[j] == SumAlong(start, ofs, path'[..j])
    {
      if j == |path| {
        assert path'[..j] == path;
      } else {
        assert path'[..j] == path[..j];
      }
    }
  }

  lemma SumsOther(start: int, ofs: seq<int>, path: seq<int>, xs: seq<int>, path': seq<int>)
    requires Sums(start, ofs, path, xs) && path != [] && |path'| <= |path|
    requires forall j :: 0 <= j < |path'| && j < |path| - 1 ==> path'[j] == path[j]
    ensures Sums(start, ofs, path', xs)
  {
    forall j | 0 <= j < |path'|
      ensures path'[..j] == path[..j]
    {
    }
  }

  lemma FallingMore(t: Shape, r: seq<int>, path: seq<int>, p: int, i: nat)
    requires RanksOk(t, r) && Falling(r, path) && 0 <= p < |t.kids| && i < |t.kids[p]|
    ensures path[|path| - 1] == p ==> Falling(r, path + [t.kids[p][i]])
    ensures |path| > 1 && path[|path| - 2] == p ==> Falling(r, path[|path| - 1 := t.kids[p][i]])
    ensures |path| > 1 ==> Falling(r, path[..|path| - 1])
  {
    RanksFall(t, r);
    assert r[t.kids[p][i]] < r[p];
  }

  lemma LoggedMore(log: seq<Visit>, path: seq<int>, v: Visit, c: int)
    requires path != [] && Logged(log, path, |path| - 1) && v.obj == path[|path| - 1]
    ensures Logged(log + [v], path, |path|) && Logged(log + [v], path + [c], |path|)
  {
    var log' := log + [v];
    forall j | 0 <= j < |path|
      ensures exists m :: 0 <= m < |log'| && log'[m].obj == path[j]
    {
      if j == |path| - 1 {
        assert log'[|log|].obj == path[j];
      } else {
        var m :| 0 <= m < |log| && log[m].obj == path[j];
        assert log'[m].obj == path[j];
      }
    }
  }

  /** The current object is visited; then its first child is next, or what follows it. */
  lemma VisitHere(w: Walk, full: seq<Visit>, last: int, path: seq<int>, at: seq<nat>, log: seq<Visit>, r: seq<int>,
                  xs: seq<int>, ys: seq<int>)
    requires Walking(w, full, last, path, at, log, true, r, xs, ys) && |path| < |xs|
    requires path != [] && path[|path| - 1] != last
    ensures
      var n := |path| - 1;
      var o := path[n];
      && 0 <= o < |w.t.kids| && |w.k.x| == |w.k.y| == |w.k.hidden| == |w.t.kids| && |xs| == |ys|
      && var x, y := xs[n] + w.k.x[o], ys[n] + w.k.y[o];
      var log', xs', ys' := log + [Visit(o, x, y)], xs[n + 1 := x], ys[n + 1 := y];
      if w.t.kids[o] != [] && !w.k.hidden[o] && |path| <= w.lim
      then Walking(w, full, last, path + [w.t.kids[o][0]], at + [0], log', true, r, xs', ys')
      else Walking(w, full, last, path, at, log', false, r, xs', ys')
  {
    var n := |path| - 1;
    hide Here, Cont, Path, Falling, Sums, Logged, RanksOk;
    PathShape(w, path, at);
    var o := path[n];
    SumsSize(w.sx, w.k.x, path, xs);
    var x, y := xs[n] + w.k.x[o], ys[n] + w.k.y[o];
    var v := Visit(o, x, y);
    var c := if w.t.kids[o] != [] then w.t.kids[o][0] else NIL;
    SumsVisit(w.sx, w.k.x, path, xs, c);
    SumsVisit(w.sy, w.k.y, path, ys, c);
    LoggedMore(log, path, v, c);
    if w.t.kids[o] != [] && !w.k.hidden[o] && |path| <= w.lim {
      GoDown(w, path, at);
      FallingMore(w.t, r, path, o, 0);
      var due := Due(w, path + [c], at + [0], true);
      assert log + ([v] + due) == log + [v] + due;
    } else {
      NoneBelow(w, path, at);
      assert log + ([v] + Cont(w, path, at)) == log + [v] + ([] + Cont(w, path, at));
    }
  }

  lemma SumsSize(start: int, ofs: seq<int>, path: seq<int>, xs: seq<int>)
    requires Sums(start, ofs, path, xs)
    ensures |path| <= |xs|
  {
  }

  /** After an object and all below it: its next sibling, or the rest of its parent's siblings. */
  lemma LeaveHere(w: Walk, full: seq<Visit>, last: int, path: seq<int>, at: seq<nat>, log: seq<Visit>, r: seq<int>,
                  xs: seq<int>, ys: seq<int>)
    requires Walking(w, full, last, path, at, log, false, r, xs, ys)
    ensures path != [] && |at| == |path|
    ensures |path| == 1 ==> UpTo(full, last) == log && full == log && Spared(log, last)
    ensures |path| > 1 ==>
      var n := |path| - 1;
      var p, i := path[n - 1], at[n];
      && 0 <= p < |w.t.kids| && i < |w.t.kids[p]|
      && (After(w.t.kids[p], i, p) == last ==> UpTo(full, last) == log)
      && (After(w.t.kids[p], i, p) != last ==>
            if i + 1 < |w.t.kids[p]|
            then Walking(w, full, last, path[n := w.t.kids[p][i + 1]], at[n := i + 1], log, true, r, xs, ys)
            else Walking(w, full, last, path[..n], at[..n], log, false, r, xs, ys))
  {
    var n := |path| - 1;
    hide Here, Cont, Path, Falling, Sums, RanksOk;
    PathShape(w, path, at);
    assert [] + Cont(w, path, at) == Cont(w, path, at);
    if n == 0 {
      UpToSplit(log, Cont(w, path, at), last);
      return;
    }
    var p, i := path[n - 1], at[n];
    if i + 1 < |w.t.kids[p]| {
      GoOn(w, path, at);
      if w.t.kids[p][i + 1] == last {
        UpToSplit(log, Cont(w, path, at), last);
      } else {
        FallingMore(w.t, r, path, p, i + 1);
        SumsOther(w.sx, w.k.x, path, xs, path[n := w.t.kids[p][i + 1]]);
        SumsOther(w.sy, w.k.y, path, ys, path[n := w.t.kids[p][i + 1]]);
      }
    } else {
      GoUp(w, path, at);
      var m :| 0 <= m < |log| && log[m].obj == path[n - 1];
      FallingMore(w.t, r, path, p, i);
      SumsOther(w.sx, w.k.x, path, xs, path[..n]);
      SumsOther(w.sy, w.k.y, path, ys, path[..n]);
      assert [] + Cont(w, path[..n], at[..n]) == Cont(w, path[..n], at[..n]);
    }
  }
}
