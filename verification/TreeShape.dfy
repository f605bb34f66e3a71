/**
 Object trees as threaded lists: an object knows its first and last child, and every object leads on to its next
 sibling, the last one to its parent (aes/gemoblib.c, aes/gemobjop.c).
 */
module TreeShape {
  import opened Chains

  const ROOT: int := 0

  function LastOf(c: seq<int>): int {
    if c == [] then NIL else c[|c| - 1]
  }

  // ob_next, ob_head and ob_tail of all objects.
  datatype Links = Links(next: seq<int>, head: seq<int>, tail: seq<int>)

  // The children of every object, its parent, and a rank that falls from parent to child.
  datatype Shape = Shape(kids: seq<seq<int>>, par: seq<int>, rank: seq<int>)

  ghost predicate Sized(l: Links, t: Shape, n: nat) {
    && |l.next| == n && |l.head| == n && |l.tail| == n
    && |t.kids| == n && |t.par| == n && |t.rank| == n
  }

  // The links of object p show its children.
  ghost predicate Family(l: Links, kids: seq<int>, p: int) {
    && 0 <= p < |l.head| && |l.tail| == |l.head|
    && Linked(l.next, kids, p)
    && l.head[p] == Head(kids, NIL) && l.tail[p] == LastOf(kids)
  }

  // Children and parents agree, and there are no cycles.
  ghost predicate Parents(t: Shape) {
    && |t.par| == |t.kids| == |t.rank|
    && (forall p, i :: 0 <= p < |t.kids| && 0 <= i < |t.kids[p]| ==> ChildOk(t, p, t.kids[p][i]))
    && (forall c :: 0 <= c < |t.par| ==> t.par[c] == NIL || (0 <= t.par[c] < |t.kids| && c in t.kids[t.par[c]]))
  }

  ghost predicate ChildOk(t: Shape, p: int, c: int)
    requires 0 <= p < |t.rank| && |t.par| == |t.rank|
  {
    0 <= c < |t.par| && c != ROOT && t.par[c] == p && t.rank[c] < t.rank[p]
  }

  ghost predicate Threaded(l: Links, t: Shape, n: nat) {
    && n > 0 && Sized(l, t, n) && Parents(t)
    && (forall p :: 0 <= p < n ==> Family(l, t.kids[p], p))
  }

  lemma FamilyAt(l: Links, t: Shape, n: nat, p: int)
    requires Threaded(l, t, n) && 0 <= p < n
    ensures Sized(l, t, n) && Family(l, t.kids[p], p) && Parents(t)
    ensures l.head[p] == Head(t.kids[p], NIL) && l.tail[p] == LastOf(t.kids[p])
    ensures InArena(t.kids[p], n) && Distinct(t.kids[p])
  {
  }

  lemma KidAt(l: Links, t: Shape, n: nat, p: int, i: nat)
    requires Threaded(l, t, n) && 0 <= p < n && i < |t.kids[p]|
    ensures var c := t.kids[p][i];
      && 0 <= c < n && c != ROOT && c != p && t.par[c] == p && t.rank[c] < t.rank[p]
      && l.next[c] == After(t.kids[p], i, p) && 0 <= l.next[c] < n
  {
    assert Family(l, t.kids[p], p);
    assert ChildOk(t, p, t.kids[p][i]);
  }

  // The place of a child among its siblings.
  ghost function PlaceOf(t: Shape, c: int): (i: nat)
    requires Parents(t) && 0 <= c < |t.par| && t.par[c] != NIL
    ensures i < |t.kids[t.par[c]]| && t.kids[t.par[c]][i] == c
  {
    var i: nat :| i < |t.kids[t.par[c]]| && t.kids[t.par[c]][i] == c;
    i
  }

  /** The tail of the next object tells whether it is the parent or a sibling. */
  lemma TailTells(l: Links, t: Shape, n: nat, p: int, i: nat)
    requires Threaded(l, t, n) && 0 <= p < n && i < |t.kids[p]|
    ensures
      var c := t.kids[p][i];
      0 <= l.next[c] < n && (l.tail[l.next[c]] == c <==> i == |t.kids[p]| - 1)
  {
    KidAt(l, t, n, p, i);
    FamilyAt(l, t, n, p);
    var c := t.kids[p][i];
    if i + 1 < |t.kids[p]| {
      KidAt(l, t, n, p, i + 1);
      var s := t.kids[p][i + 1];
      FamilyAt(l, t, n, s);
      if t.kids[s] != [] {
        KidAt(l, t, n, s, |t.kids[s]| - 1);
      }
    }
  }

  // ---- edits ----

  /** Changing one family only: the links of all other children, heads and tails stay. */
  lemma OneFamily(l: Links, t: Shape, l': Links, t': Shape, n: nat, p: int, c: int)
    requires Threaded(l, t, n) && Sized(l', t', n) && 0 <= p < n && 0 <= c < n
    requires Parents(t') && (t.par[c] == NIL || t.par[c] == p)
    requires forall q :: 0 <= q < n && q != p ==>
      t'.kids[q] == t.kids[q] && l'.head[q] == l.head[q] && l'.tail[q] == l.tail[q]
    requires forall e :: 0 <= e < n && e != c && t.par[e] != p ==> l'.next[e] == l.next[e]
    requires Family(l', t'.kids[p], p)
    ensures Threaded(l', t', n)
  {
    forall q | 0 <= q < n
      ensures Family(l', t'.kids[q], q)
    {
      if q != p {
        assert Family(l, t.kids[q], q);
        forall i | 0 <= i < |t.kids[q]|
          ensures l'.next[t.kids[q][i]] == l.next[t.kids[q][i]]
        {
          KidAt(l, t, n, q, i);
        }
        LinkedElsewhere(l.next, l'.next, t.kids[q], q);
      }
    }
  }

  // The tree with child c added behind the children of p; rank' is a ranking in which that makes no cycle.
  function Added(t: Shape, p: int, c: int, rank': seq<int>): Shape
    requires 0 <= p < |t.kids| && 0 <= c < |t.par|
  {
    Shape(t.kids[p := t.kids[p] + [c]], t.par[c := p], rank')
  }

  function LinkAdded(l: Links, p: int, c: int): Links
    requires 0 <= p < |l.head| && 0 <= c < |l.next| && |l.tail| == |l.head|
    requires l.tail[p] == NIL || 0 <= l.tail[p] < |l.next|
  {
    var next1 := l.next[c := p];
    Links(if l.tail[p] == NIL then next1 else next1[l.tail[p] := c],
          if l.tail[p] == NIL then l.head[p := c] else l.head,
          l.tail[p := c])
  }

  ghost predicate Ranked(t: Shape, rank': seq<int>) {
    |rank'| == |t.kids| && forall p, i :: 0 <= p < |t.kids| && 0 <= i < |t.kids[p]| ==>
      0 <= t.kids[p][i] < |rank'| && rank'[t.kids[p][i]] < rank'[p]
  }

  lemma AddedParents(t: Shape, p: int, c: int, rank': seq<int>)
    requires Parents(t) && 0 <= p < |t.kids| && 0 <= c < |t.par| && t.par[c] == NIL && c != ROOT
    requires Ranked(t, rank') && rank'[c] < rank'[p]
    ensures Parents(Added(t, p, c, rank'))
    ensures Apart(t.kids[p], [c])
  {
    var t' := Added(t, p, c, rank');
    forall q, i | 0 <= q < |t'.kids| && 0 <= i < |t'.kids[q]|
      ensures ChildOk(t', q, t'.kids[q][i])
    {
      if q != p || i < |t.kids[p]| {
        assert ChildOk(t, q, t.kids[q][i]);
        assert t'.kids[q][i] == t.kids[q][i];
      }
    }
    forall e | 0 <= e < |t'.par|
      ensures t'.par[e] == NIL || (0 <= t'.par[e] < |t'.kids| && e in t'.kids[t'.par[e]])
    {
      if e == c {
        assert t'.kids[p][|t.kids[p]|] == c;
      } else if t.par[e] == p {
        var i := PlaceOf(t, e);
        assert t'.kids[p][i] == e;
      }
    }
    forall i | 0 <= i < |t.kids[p]|
      ensures t.kids[p][i] != c
    {
      assert ChildOk(t, p, t.kids[p][i]);
    }
  }

  /** Adding a child appends it to the children. */
  lemma AddedThreaded(l: Links, t: Shape, n: nat, p: int, c: int, rank': seq<int>)
    requires Threaded(l, t, n) && 0 <= p < n && 0 <= c < n && t.par[c] == NIL && c != ROOT
    requires Ranked(t, rank') && rank'[c] < rank'[p]
    ensures l.tail[p] == NIL || 0 <= l.tail[p] < n
    ensures Threaded(LinkAdded(l, p, c), Added(t, p, c, rank'), n)
  {
    hide Threaded, Parents;
    FamilyAt(l, t, n, p);
    AddedParents(t, p, c, rank');
    var l', t' := LinkAdded(l, p, c), Added(t, p, c, rank');
    InsertLink(l.next, t.kids[p], |t.kids[p]|, c, p);
    assert Inserted(t.kids[p], |t.kids[p]|, c) == t.kids[p] + [c];
    assert Family(l', t'.kids[p], p);
    forall e | 0 <= e < n && e != c && t.par[e] != p
      ensures l'.next[e] == l.next[e]
    {
      if t.kids[p] != [] {
        KidAt(l, t, n, p, |t.kids[p]| - 1);
      }
    }
    OneFamily(l, t, l', t', n, p, c);
  }

  // The tree with the i-th child of p taken out.
  function Removed(t: Shape, p: int, i: nat): Shape
    requires 0 <= p < |t.kids| && i < |t.kids[p]| && 0 <= t.kids[p][i] < |t.par|
  {
    Shape(t.kids[p := Without(t.kids[p], i)], t.par[t.kids[p][i] := NIL], t.rank)
  }

  function LinkRemoved(l: Links, kids: seq<int>, p: int, i: nat): Links
    requires 0 <= p < |l.head| && |l.tail| == |l.head| && i < |kids| && InArena(kids, |l.next|)
  {
    var rest := Without(kids, i);
    Links(if i == 0 then l.next else l.next[kids[i - 1] := After(kids, i, p)],
          l.head[p := Head(rest, NIL)], l.tail[p := LastOf(rest)])
  }

  lemma RemovedParents(t: Shape, p: int, i: nat)
    requires Parents(t) && 0 <= p < |t.kids| && i < |t.kids[p]| && Distinct(t.kids[p]) && InArena(t.kids[p], |t.par|)
    ensures Parents(Removed(t, p, i))
  {
    var t', c := Removed(t, p, i), t.kids[p][i];
    assert ChildOk(t, p, c);
    forall q, j | 0 <= q < |t'.kids| && 0 <= j < |t'.kids[q]|
      ensures ChildOk(t', q, t'.kids[q][j])
    {
      if q == p {
        WithoutAt(t.kids[p], i, j);
        assert ChildOk(t, p, t.kids[p][if j < i then j else j + 1]);
      } else {
        assert ChildOk(t, q, t.kids[q][j]);
      }
    }
    forall e | 0 <= e < |t'.par|
      ensures t'.par[e] == NIL || (0 <= t'.par[e] < |t'.kids| && e in t'.kids[t'.par[e]])
    {
      if t.par[e] == p {
        WithoutMember(t.kids[p], i, e);
      }
    }
  }

  /** Deleting an object removes it from the children of its parent. */
  lemma RemovedThreaded(l: Links, t: Shape, n: nat, p: int, i: nat)
    requires Threaded(l, t, n) && 0 <= p < n && i < |t.kids[p]|
    ensures InArena(t.kids[p], n) && Sized(l, t, n)
    ensures Threaded(LinkRemoved(l, t.kids[p], p, i), Removed(t, p, i), n)
  {
    hide Threaded, Parents;
    FamilyAt(l, t, n, p);
    KidAt(l, t, n, p, i);
    RemovedParents(t, p, i);
    var l', t' := LinkRemoved(l, t.kids[p], p, i), Removed(t, p, i);
    RemovedFamily(l, t.kids[p], p, i);
    if i > 0 {
      KidAt(l, t, n, p, i - 1);
    }
    hide Family, Distinct, InArena, Without;
    OneFamily(l, t, l', t', n, p, t.kids[p][i]);
  }

  lemma RemovedFamily(l: Links, kids: seq<int>, p: int, i: nat)
    requires Family(l, kids, p) && i < |kids| && InArena(kids, |l.next|)
    ensures Family(LinkRemoved(l, kids, p, i), Without(kids, i), p)
  {
    if i > 0 {
      UnlinkInner(l.next, kids, i, p);
      assert l.next[kids[i]] == After(kids, i, p);
    } else {
      UnlinkFirst(l.next, kids, p);
    }
  }

  // The tree with c put in as the k-th child of p.
  function PutIn(t: Shape, p: int, k: nat, c: int): Shape
    requires 0 <= p < |t.kids| && k <= |t.kids[p]| && 0 <= c < |t.par|
  {
    Shape(t.kids[p := Inserted(t.kids[p], k, c)], t.par[c := p], t.rank)
  }

  function LinkPutIn(l: Links, kids: seq<int>, p: int, k: nat, c: int): Links
    requires 0 <= p < |l.head| && |l.tail| == |l.head| && k <= |kids| && InArena(kids, |l.next|) && 0 <= c < |l.next|
  {
    var next1 := l.next[c := if k < |kids| then kids[k] else p];
    Links(if k == 0 then next1 else next1[kids[k - 1] := c],
          if k == 0 then l.head[p := c] else l.head,
          if k == |kids| then l.tail[p := c] else l.tail)
  }

  lemma PutInParents(t: Shape, p: int, k: nat, c: int)
    requires Parents(t) && 0 <= p < |t.kids| && k <= |t.kids[p]| && 0 <= c < |t.par| && t.par[c] == NIL && c != ROOT
    requires t.rank[c] < t.rank[p]
    ensures Parents(PutIn(t, p, k, c))
    ensures Apart(t.kids[p], [c])
  {
    var t' := PutIn(t, p, k, c);
    forall q, i | 0 <= q < |t'.kids| && 0 <= i < |t'.kids[q]|
      ensures ChildOk(t', q, t'.kids[q][i])
    {
      if q == p {
        InsertedAt(t.kids[p], k, c, i);
        if i != k {
          assert ChildOk(t, p, t.kids[p][if i < k then i else i - 1]);
        }
      } else {
        assert ChildOk(t, q, t.kids[q][i]);
      }
    }
    forall e | 0 <= e < |t'.par|
      ensures t'.par[e] == NIL || (0 <= t'.par[e] < |t'.kids| && e in t'.kids[t'.par[e]])
    {
      if e == c {
        InsertedAt(t.kids[p], k, c, k);
      } else if t.par[e] == p {
        var i := PlaceOf(t, e);
        InsertedAt(t.kids[p], k, c, if i < k then i else i + 1);
        assert t'.kids[p][if i < k then i else i + 1] == e;
      }
    }
    forall i | 0 <= i < |t.kids[p]|
      ensures t.kids[p][i] != c
    {
      assert ChildOk(t, p, t.kids[p][i]);
    }
  }

  /** Putting a child in at a place. */
  lemma PutInThreaded(l: Links, t: Shape, n: nat, p: int, k: nat, c: int)
    requires Threaded(l, t, n) && 0 <= p < n && 0 <= c < n && k <= |t.kids[p]| && t.par[c] == NIL && c != ROOT
    requires t.rank[c] < t.rank[p]
    ensures InArena(t.kids[p], n) && Sized(l, t, n)
    ensures Threaded(LinkPutIn(l, t.kids[p], p, k, c), PutIn(t, p, k, c), n)
  {
    hide Threaded, Parents;
    FamilyAt(l, t, n, p);
    PutInParents(t, p, k, c);
    var l', t' := LinkPutIn(l, t.kids[p], p, k, c), PutIn(t, p, k, c);
    InsertLink(l.next, t.kids[p], k, c, p);
    InsertedAt(t.kids[p], k, c, 0);
    InsertedAt(t.kids[p], k, c, |t.kids[p]|);
    assert Family(l', t'.kids[p], p);
    if k > 0 {
      KidAt(l, t, n, p, k - 1);
    }
    OneFamily(l, t, l', t', n, p, c);
  }
}
