/**
 The shared pool of owner rectangles behind aes/gemwrect.c, as values: one free list and one list per window,
 every node on exactly one of them.
 */
module OrectPool {
  import opened Chains
  import opened ListCount
  import opened Geometry
  import opened RectArena

  // Concrete links and list heads, with the ghost lists they stand for and the list each node is on.
  datatype Pool = Pool(
    link: seq<int>, rul: int, heads: seq<int>,
    free: seq<int>, lists: seq<seq<int>>, owner: seq<int>
  )

  // Every node is on exactly one list: the free list or a window's.
  ghost predicate Sound(p: Pool) {
    && |p.heads| == |p.lists|
    && Holds(p.link, p.rul, p.free, p.owner, FREE)
    && (forall w {:trigger p.lists[w]} :: 0 <= w < |p.lists| ==> Holds(p.link, p.heads[w], p.lists[w], p.owner, w))
    && forall n :: 0 <= n < |p.owner| ==> FREE <= p.owner[n] < |p.lists|
  }

  // A list whose nodes' links and owners did not change is still the same list.
  lemma HoldsElsewhere(p: Pool, q: Pool, w: int, head: int, c: seq<int>)
    requires Holds(p.link, head, c, p.owner, w)
    requires |q.link| == |p.link| == |q.owner|
    requires forall n :: 0 <= n < |p.owner| && p.owner[n] == w ==> q.link[n] == p.link[n]
    requires forall n :: 0 <= n < |p.owner| ==> (p.owner[n] == w <==> q.owner[n] == w)
    ensures Holds(q.link, head, c, q.owner, w)
  {
    LinkedElsewhere(p.link, q.link, c, NIL);
  }

  // Everything but the free list and window w's list is as it was.
  ghost predicate OthersKept(p: Pool, q: Pool, w: int) {
    && |q.link| == |p.link| == |q.owner| == |p.owner| && |q.heads| == |p.heads| == |q.lists| == |p.lists|
    && (forall v :: 0 <= v < |p.lists| && v != w ==> q.heads[v] == p.heads[v] && q.lists[v] == p.lists[v])
    && (forall n :: 0 <= n < |p.owner| && p.owner[n] !in {FREE, w} ==>
      q.link[n] == p.link[n] && q.owner[n] == p.owner[n])
    && forall n :: 0 <= n < |p.owner| && p.owner[n] in {FREE, w} ==> q.owner[n] in {FREE, w}
  }

  lemma SoundFromTwo(p: Pool, q: Pool, w: nat)
    requires Sound(p) && w < |p.lists| && OthersKept(p, q, w)
    requires Holds(q.link, q.rul, q.free, q.owner, FREE)
    requires Holds(q.link, q.heads[w], q.lists[w], q.owner, w)
    ensures Sound(q)
  {
    forall v | 0 <= v < |q.lists|
      ensures Holds(q.link, q.heads[v], q.lists[v], q.owner, v)
    {
      if v != w {
        HoldsElsewhere(p, q, v, p.heads[v], p.lists[v]);
      }
    }
  }

  // ---- the three moves of nodes between a window's list and the free list ----

  // The first free node goes into window w's list before position k.
  function Taken(p: Pool, w: nat, k: nat): Pool
    requires w < |p.lists| && w < |p.heads| && k <= |p.lists[w]| && p.free != []
    requires InArena(p.free, |p.link|) && InArena(p.lists[w], |p.link|) && |p.owner| == |p.link|
  {
    var e, c := p.free[0], p.lists[w];
    var own := p.link[e := if k < |c| then c[k] else NIL];
    p.(
      link := if k == 0 then own else own[c[k - 1] := e],
      rul := p.link[e],
      heads := if k == 0 then p.heads[w := e] else p.heads,
      free := p.free[1..],
      lists := p.lists[w := Inserted(c, k, e)],
      owner := p.owner[e := w]
    )
  }

  lemma SoundTaken(p: Pool, w: nat, k: nat)
    requires Sound(p) && w < |p.lists| && k <= |p.lists[w]| && p.free != []
    ensures Sound(Taken(p, w, k)) && OthersKept(p, Taken(p, w, k), w)
  {
    var q := Taken(p, w, k);
    TakenLinked(p, w, k);
    InsertedHolds(p, q, w, k);
    FreeTailHolds(p, q, w, k);
    hide Holds;
    SoundFromTwo(p, q, w);
  }

  lemma TakenLinked(p: Pool, w: nat, k: nat)
    requires Sound(p) && w < |p.lists| && k <= |p.lists[w]| && p.free != []
    ensures Linked(Taken(p, w, k).link, Taken(p, w, k).lists[w], NIL)
    ensures p.owner[p.free[0]] == FREE && (k > 0 ==> p.owner[p.lists[w][k - 1]] == w)
  {
    var e, c := p.free[0], p.lists[w];
    assert Holds(p.link, p.heads[w], c, p.owner, w);
    assert p.owner[e] == FREE;
    assert k > 0 ==> p.owner[c[k - 1]] == w;
    assert Apart(c, [e]);
    InsertLink(p.link, c, k, e, NIL);
  }

  lemma InsertedHolds(p: Pool, q: Pool, w: nat, k: nat)
    requires Sound(p) && w < |p.lists| && k <= |p.lists[w]| && p.free != []
    requires q == Taken(p, w, k) && Linked(q.link, q.lists[w], NIL)
    ensures Holds(q.link, q.heads[w], q.lists[w], q.owner, w)
  {
    var e, c := p.free[0], p.lists[w];
    assert Holds(p.link, p.heads[w], c, p.owner, w);
    InsertedAt(c, k, e, 0);
    forall i | 0 <= i < |q.lists[w]|
      ensures q.owner[q.lists[w][i]] == w
    {
      InsertedAt(c, k, e, i);
    }
    forall n | 0 <= n < |q.owner| && q.owner[n] == w
      ensures n in q.lists[w]
    {
      if n == e {
        InsertedAt(c, k, e, k);
      } else {
        var i :| 0 <= i < |c| && c[i] == n;
        InsertedAt(c, k, e, if i < k then i else i + 1);
      }
    }
  }

  lemma FreeTailHolds(p: Pool, q: Pool, w: nat, k: nat)
    requires Sound(p) && w < |p.lists| && k <= |p.lists[w]| && p.free != []
    requires q == Taken(p, w, k)
    ensures Holds(q.link, q.rul, q.free, q.owner, FREE)
  {
    var e, c := p.free[0], p.lists[w];
    assert Holds(p.link, p.heads[w], c, p.owner, w);
    ChainTail(p.link, p.free);
    assert forall i :: 0 <= i < |q.free| ==> q.free[i] == p.free[i + 1];
    assert forall i :: 0 <= i < |q.free| ==> p.owner[q.free[i]] == FREE && q.free[i] != e;
    LinkedElsewhere(p.link, q.link, q.free, NIL);
    forall n | 0 <= n < |q.owner| && q.owner[n] == FREE
      ensures n in q.free
    {
      var i :| 0 <= i < |p.free| && p.free[i] == n;
      assert q.free[i - 1] == n;
    }
  }

  // Position k of window w's list goes to the front of the free list.
  function Returned(p: Pool, w: nat, k: nat): Pool
    requires w < |p.lists| && w < |p.heads| && k < |p.lists[w]|
    requires InArena(p.lists[w], |p.link|) && |p.owner| == |p.link|
  {
    var c := p.lists[w];
    var r := c[k];
    p.(
      link := (if k == 0 then p.link else p.link[c[k - 1] := p.link[r]])[r := p.rul],
      rul := r,
      heads := if k == 0 then p.heads[w := p.link[r]] else p.heads,
      free := [r] + p.free,
      lists := p.lists[w := Without(c, k)],
      owner := p.owner[r := FREE]
    )
  }

  lemma SoundReturned(p: Pool, w: nat, k: nat)
    requires Sound(p) && w < |p.lists| && k < |p.lists[w]|
    ensures Sound(Returned(p, w, k))
  {
    var q, c := Returned(p, w, k), p.lists[w];
    assert Holds(p.link, p.heads[w], c, p.owner, w);
    assert p.owner[c[k]] == w;
    WithoutHolds(p, q, w, k);
    FreeConsHolds(p, q, w, k);
    SoundFromTwo(p, q, w);
  }

  lemma WithoutHolds(p: Pool, q: Pool, w: nat, k: nat)
    requires Sound(p) && w < |p.lists| && k < |p.lists[w]| && q == Returned(p, w, k)
    ensures Holds(q.link, q.heads[w], q.lists[w], q.owner, w)
  {
    var c, d := p.lists[w], q.lists[w];
    assert Holds(p.link, p.heads[w], c, p.owner, w);
    assert p.link[c[k]] == After(c, k, NIL);
    WithoutDistinct(c, k);
    forall i | 0 <= i < |d|
      ensures 0 <= d[i] < |q.link| && q.owner[d[i]] == w && d[i] != c[k]
    {
      WithoutAt(c, k, i);
    }
    if k == 0 {
      UnlinkFirst(p.link, c, NIL);
      LinkedElsewhere(p.link, q.link, d, NIL);
    } else {
      UnlinkInner(p.link, c, k, NIL);
      LinkedElsewhere(p.link[c[k - 1] := p.link[c[k]]], q.link, d, NIL);
    }
    forall n | 0 <= n < |q.owner| && q.owner[n] == w
      ensures n in d
    {
      WithoutMember(c, k, n);
    }
  }

  lemma FreeConsHolds(p: Pool, q: Pool, w: nat, k: nat)
    requires Sound(p) && w < |p.lists| && k < |p.lists[w]| && q == Returned(p, w, k)
    ensures Holds(q.link, q.rul, q.free, q.owner, FREE)
  {
    var c := p.lists[w];
    assert Holds(p.link, p.heads[w], c, p.owner, w);
    var r := c[k];
    assert p.owner[r] == w;
    assert forall i :: 0 <= i < |p.free| ==> p.owner[p.free[i]] == FREE;
    assert k > 0 ==> p.owner[c[k - 1]] == w;
    LinkedElsewhere(p.link, q.link, p.free, NIL);
    PrependLink(q.link, p.free, r);
    forall n | 0 <= n < |q.owner| && q.owner[n] == FREE
      ensures n in q.free
    {
      if n != r {
        assert n in p.free;
      }
    }
  }

  // Window w's whole list goes to the front of the free list.
  function Dumped(p: Pool, w: nat): Pool
    requires w < |p.lists| && w < |p.heads| && p.lists[w] != [] && InArena(p.lists[w], |p.link|)
  {
    var c := p.lists[w];
    p.(
      link := p.link[c[|c| - 1] := p.rul],
      rul := p.heads[w],
      heads := p.heads[w := NIL],
      free := c + p.free,
      lists := p.lists[w := []],
      owner := seq(|p.owner|, n requires 0 <= n < |p.owner| => if p.owner[n] == w then FREE else p.owner[n])
    )
  }

  lemma SoundDumped(p: Pool, w: nat)
    requires Sound(p) && w < |p.lists| && p.lists[w] != []
    ensures Sound(Dumped(p, w))
  {
    var q, c := Dumped(p, w), p.lists[w];
    assert Holds(p.link, p.heads[w], c, p.owner, w);
    assert Apart(c, p.free) by {
      assert forall i :: 0 <= i < |c| ==> p.owner[c[i]] == w;
    }
    AppendLink(p.link, c, p.free);
    assert p.owner[c[|c| - 1]] == w;
    assert Holds(q.link, q.rul, q.free, q.owner, FREE);
    SoundFromTwo(p, q, w);
  }

  /** No node is lost and none is shared: the free list and the window lists together hold all of them, each once. */
  lemma NodesConserved(p: Pool)
    requires Sound(p)
    ensures Nodes(p.free, p.lists) == |p.link|
    ensures forall n :: 0 <= n < |p.link| ==> (n in p.free <==> forall w :: 0 <= w < |p.lists| ==> n !in p.lists[w])
    ensures forall n, v, w :: 0 <= v < w < |p.lists| && n in p.lists[v] ==> n !in p.lists[w]
  {
    AllNodes(p.link, p.rul, p.heads, p.free, p.lists, p.owner);
    forall w, n | 0 <= w < |p.lists|
      ensures n in p.lists[w] <==> 0 <= n < |p.owner| && p.owner[n] == w
    {
      assert Holds(p.link, p.heads[w], p.lists[w], p.owner, w);
    }
    forall n | 0 <= n < |p.link|
      ensures n in p.free <==> forall w :: 0 <= w < |p.lists| ==> n !in p.lists[w]
    {
      assert p.owner[n] != FREE ==> n in p.lists[p.owner[n]];
    }
  }

  // ---- the rectangles on the lists ----

  ghost predicate Holding(p: Pool, rect: seq<Rect>) {
    Sound(p) && |rect| == |p.link|
  }

  ghost function ShowOf(p: Pool, rect: seq<Rect>, w: nat): seq<Rect>
    requires Holding(p, rect) && w < |p.lists|
  {
    assert Holds(p.link, p.heads[w], p.lists[w], p.owner, w);
    Rects(rect, p.lists[w])
  }

  lemma ShowsNode(p: Pool, rect: seq<Rect>, w: nat, k: nat)
    requires Holding(p, rect) && w < |p.lists| && k < |p.lists[w]|
    ensures 0 <= p.lists[w][k] < |rect| && |ShowOf(p, rect, w)| == |p.lists[w]|
    ensures ShowOf(p, rect, w)[k] == rect[p.lists[w][k]]
  {
    assert Holds(p.link, p.heads[w], p.lists[w], p.owner, w);
  }

  // Only window w's list and the free list may differ.
  ghost predicate OnlyWindow(p: Pool, rect: seq<Rect>, q: Pool, rect': seq<Rect>, w: nat) {
    && OthersKept(p, q, w) && |rect| == |rect'| == |p.owner|
    && forall n :: 0 <= n < |rect| && p.owner[n] !in {FREE, w} ==> rect'[n] == rect[n]
  }

  lemma OnlyWindowSelf(p: Pool, rect: seq<Rect>, w: nat)
    requires Holding(p, rect) && w < |p.lists|
    ensures OnlyWindow(p, rect, p, rect, w)
  {
  }

  lemma OnlyWindowTrans(p: Pool, rp: seq<Rect>, q: Pool, rq: seq<Rect>, s: Pool, rs: seq<Rect>, w: nat)
    requires OnlyWindow(p, rp, q, rq, w) && OnlyWindow(q, rq, s, rs, w)
    ensures OnlyWindow(p, rp, s, rs, w)
  {
  }

  lemma ShowElsewhere(p: Pool, rp: seq<Rect>, q: Pool, rq: seq<Rect>, w: nat, v: nat)
    requires Holding(p, rp) && Holding(q, rq) && OnlyWindow(p, rp, q, rq, w)
    requires v != w && v < |p.lists|
    ensures ShowOf(q, rq, v) == ShowOf(p, rp, v)
  {
    assert Holds(p.link, p.heads[v], p.lists[v], p.owner, v);
  }

  lemma ShowTaken(p: Pool, rect: seq<Rect>, w: nat, k: nat, r: Rect)
    requires Holding(p, rect) && w < |p.lists| && k <= |p.lists[w]| && p.free != []
    ensures 0 <= p.free[0] < |rect| && Holding(Taken(p, w, k), rect[p.free[0] := r])
    ensures OnlyWindow(p, rect, Taken(p, w, k), rect[p.free[0] := r], w)
    ensures ShowOf(Taken(p, w, k), rect[p.free[0] := r], w) == Inserted(ShowOf(p, rect, w), k, r)
  {
    SoundTaken(p, w, k);
    var e, c := p.free[0], p.lists[w];
    assert Holds(p.link, p.heads[w], c, p.owner, w);
    assert p.owner[e] == FREE;
    assert k > 0 ==> p.owner[c[k - 1]] == w;
    RectsInserted(rect, c, k, e, r);
  }

  lemma TakeFacts(p: Pool, rect: seq<Rect>, w: nat, k: nat)
    requires Holding(p, rect) && w < |p.lists| && k < |p.lists[w]|
    ensures w < |p.heads| && |p.owner| == |p.link| == |rect|
    ensures InArena(p.lists[w], |p.link|) && InArena(p.free, |p.link|)
    ensures p.rul == NIL <==> p.free == []
    ensures p.free != [] ==> p.free[0] == p.rul && 0 <= p.rul < |p.link|
    ensures 0 <= p.lists[w][k] < |p.link| && (k > 0 ==> 0 <= p.lists[w][k - 1] < |p.link|)
  {
    assert Holds(p.link, p.heads[w], p.lists[w], p.owner, w);
  }

  lemma ReturnFacts(p: Pool, rect: seq<Rect>, w: nat, k: nat)
    requires Holding(p, rect) && w < |p.lists| && k < |p.lists[w]|
    ensures w < |p.heads| && |p.owner| == |p.link| && InArena(p.lists[w], |p.link|)
    ensures 0 <= p.lists[w][k] < |p.link| && (k > 0 ==> 0 <= p.lists[w][k - 1] < |p.link|)
  {
    assert Holds(p.link, p.heads[w], p.lists[w], p.owner, w);
  }

  lemma ShowReturned(p: Pool, rect: seq<Rect>, w: nat, k: nat)
    requires Holding(p, rect) && w < |p.lists| && k < |p.lists[w]|
    ensures Holding(Returned(p, w, k), rect)
    ensures OnlyWindow(p, rect, Returned(p, w, k), rect, w)
    ensures ShowOf(Returned(p, w, k), rect, w) == Without(ShowOf(p, rect, w), k)
  {
    SoundReturned(p, w, k);
    var c := p.lists[w];
    assert Holds(p.link, p.heads[w], c, p.owner, w);
    assert p.owner[c[k]] == w && (k > 0 ==> p.owner[c[k - 1]] == w);
    RectsWithout(rect, c, k);
  }
}
