/**
 Event blocks and the lists they are on: the free list or the list of one process, and with it one wait chain or the
 list of completed events (aes/gemasync.c, aes/gemaints.c).
 */
module EventTable {
  import opened Chains
  import opened EventLists

  // The chain of completed events; the other chains are those of waiting events.
  const ZLR: int := 0

  // ---- the lists through e_nextp ----

  // The free blocks, and those of every process.
  datatype Owned = Owned(free: seq<int>, el: seq<seq<int>>)

  ghost predicate NextLists(nextp: seq<int>, eul: int, evlist: seq<int>, g: Owned, owner: seq<int>) {
    && |g.el| == |evlist| && |owner| == |nextp|
    && Holds(nextp, eul, g.free, owner, FREE)
    && forall p :: 0 <= p < |evlist| ==> ListOf(nextp, evlist, g, owner, p)
  }

  ghost predicate ListOf(nextp: seq<int>, evlist: seq<int>, g: Owned, owner: seq<int>, p: int)
    requires 0 <= p < |evlist| == |g.el|
  {
    Holds(nextp, evlist[p], g.el[p], owner, p)
  }

  lemma HoldsFacts(link: seq<int>, head: int, c: seq<int>, owner: seq<int>, w: int)
    requires Holds(link, head, c, owner, w)
    ensures InArena(c, |link|) && Distinct(c) && |owner| == |link| && head == Head(c, NIL)
    ensures forall i :: 0 <= i < |c| ==> owner[c[i]] == w
    ensures forall e :: 0 <= e < |owner| && owner[e] == w ==> e in c
  {
  }

  /** Taking the first free block for a process. */
  lemma TakeLists(nextp: seq<int>, eul: int, evlist: seq<int>, g: Owned, owner: seq<int>, p: int)
    requires NextLists(nextp, eul, evlist, g, owner) && 0 <= p < |evlist| && g.free != []
    ensures 0 <= eul < |nextp| && eul == g.free[0] && owner[eul] == FREE
    ensures NextLists(nextp[eul := evlist[p]], nextp[eul], evlist[p := eul],
                      Owned(g.free[1..], g.el[p := [eul] + g.el[p]]), owner[eul := p])
  {
    HoldsFacts(nextp, eul, g.free, owner, FREE);
    var e := eul;
    var nextp', owner', evlist' := nextp[e := evlist[p]], owner[e := p], evlist[p := e];
    var g' := Owned(g.free[1..], g.el[p := [e] + g.el[p]]);
    HoldsUnlink(nextp, eul, g.free, owner, FREE, 0, p);
    assert Without(g.free, 0) == g.free[1..];
    HoldsKept(nextp, nextp', nextp[e], g.free[1..], owner', owner', FREE);
    forall q | 0 <= q < |evlist|
      ensures ListOf(nextp', evlist', g', owner', q)
    {
      assert ListOf(nextp, evlist, g, owner, q);
      if q == p {
        HoldsPush(nextp, evlist[p], g.el[p], owner, p, e);
      } else {
        HoldsKept(nextp, nextp', evlist[q], g.el[q], owner, owner', q);
      }
    }
  }

  /** Giving the k-th block of a process back to the free list. */
  lemma GiveLists(nextp: seq<int>, eul: int, evlist: seq<int>, g: Owned, owner: seq<int>, p: int, k: nat)
    requires NextLists(nextp, eul, evlist, g, owner) && 0 <= p < |evlist| && k < |g.el[p]|
    ensures InArena(g.el[p], |nextp|) && owner[g.el[p][k]] == p
    ensures
      var e := g.el[p][k];
      var next1 := if k == 0 then nextp else nextp[g.el[p][k - 1] := nextp[e]];
      NextLists(next1[e := eul], e, if k == 0 then evlist[p := nextp[e]] else evlist,
                Owned([e] + g.free, g.el[p := Without(g.el[p], k)]), owner[e := FREE])
  {
    assert ListOf(nextp, evlist, g, owner, p);
    HoldsFacts(nextp, evlist[p], g.el[p], owner, p);
    var c := g.el[p];
    var e := c[k];
    var next1 := if k == 0 then nextp else nextp[c[k - 1] := nextp[e]];
    var next2, owner' := next1[e := eul], owner[e := FREE];
    var evlist' := if k == 0 then evlist[p := nextp[e]] else evlist;
    var g' := Owned([e] + g.free, g.el[p := Without(c, k)]);
    HoldsUnlink(nextp, evlist[p], c, owner, p, k, FREE);
    HoldsKept(next1, next2, evlist'[p], Without(c, k), owner', owner', p);
    assert k > 0 ==> owner[c[k - 1]] == p;
    HoldsKept(nextp, next1, eul, g.free, owner, owner, FREE);
    HoldsPush(next1, eul, g.free, owner, FREE, e);
    forall q | 0 <= q < |evlist|
      ensures ListOf(next2, evlist', g', owner', q)
    {
      if q != p {
        assert ListOf(nextp, evlist, g, owner, q);
        HoldsKept(nextp, next2, evlist[q], g.el[q], owner, owner', q);
      }
    }
  }

  // ---- the chains through e_link and e_pred ----

  // Chain w starts at head, and holds exactly the blocks placed on it.
  ghost predicate Placed(link: seq<int>, pred: seq<int>, head: int, c: seq<int>, place: seq<int>, w: int) {
    && Both(link, pred, head, c) && |place| == |link|
    && (forall i :: 0 <= i < |c| ==> place[c[i]] == w)
    && (forall e :: 0 <= e < |place| && place[e] == w ==> e in c)
  }

  ghost predicate ChainOf(link: seq<int>, pred: seq<int>, heads: seq<int>, ch: seq<seq<int>>, place: seq<int>, w: int)
    requires 0 <= w < |heads| == |ch|
  {
    Placed(link, pred, heads[w], ch[w], place, w)
  }

  ghost predicate WaitLists(link: seq<int>, pred: seq<int>, heads: seq<int>, ch: seq<seq<int>>, place: seq<int>) {
    && |ch| == |heads| && |place| == |link| == |pred|
    && forall w :: 0 <= w < |heads| ==> ChainOf(link, pred, heads, ch, place, w)
  }

  lemma PlacedFacts(link: seq<int>, pred: seq<int>, head: int, c: seq<int>, place: seq<int>, w: int)
    requires Placed(link, pred, head, c, place, w)
    ensures InArena(c, |link|) && |pred| == |link| == |place| && head == Head(c, NIL) && Distinct(c)
    ensures forall i :: 0 <= i < |c| ==> place[c[i]] == w
    ensures forall e :: 0 <= e < |place| && place[e] == w ==> e in c
  {
  }

  lemma PlacedAt(link: seq<int>, pred: seq<int>, head: int, c: seq<int>, place: seq<int>, w: int, k: nat)
    requires Placed(link, pred, head, c, place, w) && k < |c|
    ensures 0 <= c[k] < |link| == |pred| == |place| && place[c[k]] == w
    ensures link[c[k]] == After(c, k, NIL) && pred[c[k]] == Pred(c, k)
    ensures k > 0 ==> 0 <= c[k - 1] < |link| && place[c[k - 1]] == w
    ensures k + 1 < |c| ==> 0 <= c[k + 1] < |link| && place[c[k + 1]] == w
  {
    BothAt(link, pred, head, c, k);
  }

  lemma PlacedElsewhere(link: seq<int>, link': seq<int>, pred: seq<int>, pred': seq<int>, head: int, c: seq<int>,
                        place: seq<int>, place': seq<int>, w: int)
    requires Placed(link, pred, head, c, place, w)
    requires |link'| == |link| && |pred'| == |pred| && |place'| == |place|
    requires forall e :: 0 <= e < |place| && place[e] == w ==> link'[e] == link[e] && pred'[e] == pred[e]
    requires forall e :: 0 <= e < |place| ==> (place'[e] == w <==> place[e] == w)
    ensures Placed(link', pred', head, c, place', w)
  {
    PlacedFacts(link, pred, head, c, place, w);
    BothElsewhere(link, link', pred, pred', head, c);
  }

  lemma PlacedInsert(link: seq<int>, pred: seq<int>, head: int, c: seq<int>, place: seq<int>, w: int, k: nat, e: int)
    requires Placed(link, pred, head, c, place, w) && k <= |c| && 0 <= e < |place| && place[e] != w
    ensures InArena(c, |link|) && |pred| == |link|
    ensures Placed(LinkIn(link, c, k, e), PredIn(pred, c, k, e), if k == 0 then e else head, Inserted(c, k, e),
                   place[e := w], w)
  {
    hide Both, Inserted, Distinct;
    PlacedFacts(link, pred, head, c, place, w);
    assert Apart(c, [e]);
    BothInsert(link, pred, head, c, k, e);
    InsertedMembers(c, k, e);
    assert |LinkIn(link, c, k, e)| == |link|;
    hide Placed, LinkIn, PredIn;
    PlacedFrom(LinkIn(link, c, k, e), PredIn(pred, c, k, e), if k == 0 then e else head, Inserted(c, k, e),
                   place[e := w], w);
  }

  lemma PlacedFrom(link: seq<int>, pred: seq<int>, head: int, c: seq<int>, place: seq<int>, w: int)
    requires Both(link, pred, head, c) && |place| == |link|
    requires forall e :: e in c <==> 0 <= e < |place| && place[e] == w
    ensures Placed(link, pred, head, c, place, w)
  {
    hide Both;
    assert forall i :: 0 <= i < |c| ==> c[i] in c;
  }

  // Only the block and its neighbours are written.
  lemma InsertElsewhere(link: seq<int>, pred: seq<int>, head: int, c: seq<int>, place: seq<int>, w: int, k: nat,
                        e: int, f: int)
    requires Placed(link, pred, head, c, place, w) && k <= |c| && 0 <= e < |place| && place[e] != w
    requires 0 <= f < |place| && f != e && place[f] != w
    ensures InArena(c, |link|) && |pred| == |link| == |place|
    ensures LinkIn(link, c, k, e)[f] == link[f] && PredIn(pred, c, k, e)[f] == pred[f]
  {
    if k > 0 {
      PlacedAt(link, pred, head, c, place, w, k - 1);
    }
    if k < |c| {
      PlacedAt(link, pred, head, c, place, w, k);
    }
  }

  /** Putting a block that is on no chain into chain w before position k. */
  lemma InsertLists(link: seq<int>, pred: seq<int>, heads: seq<int>, ch: seq<seq<int>>, place: seq<int>, w: int,
                    k: nat, e: int)
    requires WaitLists(link, pred, heads, ch, place) && 0 <= w < |heads| && k <= |ch[w]|
    requires 0 <= e < |place| && place[e] == FREE
    ensures InArena(ch[w], |link|)
    ensures WaitLists(LinkIn(link, ch[w], k, e), PredIn(pred, ch[w], k, e), if k == 0 then heads[w := e] else heads,
                      ch[w := Inserted(ch[w], k, e)], place[e := w])
  {
    assert ChainOf(link, pred, heads, ch, place, w);
    var c := ch[w];
    PlacedInsert(link, pred, heads[w], c, place, w, k, e);
    forall f | 0 <= f < |place| && f != e && place[f] != w
      ensures LinkIn(link, c, k, e)[f] == link[f] && PredIn(pred, c, k, e)[f] == pred[f]
    {
      InsertElsewhere(link, pred, heads[w], c, place, w, k, e, f);
    }
    var link', pred', place' := LinkIn(link, c, k, e), PredIn(pred, c, k, e), place[e := w];
    var heads', ch' := if k == 0 then heads[w := e] else heads, ch[w := Inserted(c, k, e)];
    hide Placed, LinkIn, PredIn, Inserted, InArena;
    forall v | 0 <= v < |heads'|
      ensures ChainOf(link', pred', heads', ch', place', v)
    {
      assert ChainOf(link, pred, heads, ch, place, v);
      if v != w {
        PlacedElsewhere(link, link', pred, pred', heads[v], ch[v], place, place', v);
      }
    }
  }

  lemma InsertedMembers(c: seq<int>, k: nat, e: int)
    requires k <= |c|
    ensures |Inserted(c, k, e)| == |c| + 1 && e in Inserted(c, k, e)
    ensures forall f :: f in Inserted(c, k, e) <==> f in c || f == e
    ensures forall i :: 0 <= i < |Inserted(c, k, e)| ==> Inserted(c, k, e)[i] == e || Inserted(c, k, e)[i] in c
  {
    assert c == c[..k] + c[k..];
    assert Inserted(c, k, e)[k] == e;
  }

  lemma PlacedUnlink(link: seq<int>, pred: seq<int>, head: int, c: seq<int>, place: seq<int>, w: int, k: nat)
    requires Placed(link, pred, head, c, place, w) && k < |c| && w != FREE
    ensures InArena(c, |link|) && place[c[k]] == w
    ensures link[c[k]] == After(c, k, NIL) && pred[c[k]] == Pred(c, k)
    ensures Placed(LinkOut(link, c, k), PredOut(pred, c, k), if k == 0 then After(c, 0, NIL) else head, Without(c, k),
                   place[c[k] := FREE], w)
    ensures forall f :: 0 <= f < |place| && place[f] != w ==>
      LinkOut(link, c, k)[f] == link[f] && PredOut(pred, c, k)[f] == pred[f]
  {
    PlacedFacts(link, pred, head, c, place, w);
    PlacedAt(link, pred, head, c, place, w, k);
    BothUnlink(link, pred, head, c, k);
    var d, place' := Without(c, k), place[c[k] := FREE];
    hide Both;
    forall f | 0 <= f < |place'| && place'[f] == w
      ensures f in d
    {
      WithoutMember(c, k, f);
    }
    forall i | 0 <= i < |d|
      ensures place'[d[i]] == w
    {
      WithoutAt(c, k, i);
    }
  }

  /** Taking the k-th block out of chain w. */
  lemma UnlinkLists(link: seq<int>, pred: seq<int>, heads: seq<int>, ch: seq<seq<int>>, place: seq<int>, w: int, k: nat)
    requires WaitLists(link, pred, heads, ch, place) && 0 <= w < |heads| && k < |ch[w]|
    ensures InArena(ch[w], |link|) && place[ch[w][k]] == w
    ensures link[ch[w][k]] == After(ch[w], k, NIL) && pred[ch[w][k]] == Pred(ch[w], k)
    ensures WaitLists(LinkOut(link, ch[w], k), PredOut(pred, ch[w], k),
                      if k == 0 then heads[w := After(ch[w], 0, NIL)] else heads,
                      ch[w := Without(ch[w], k)], place[ch[w][k] := FREE])
  {
    assert ChainOf(link, pred, heads, ch, place, w);
    var c := ch[w];
    PlacedUnlink(link, pred, heads[w], c, place, w, k);
    var link', pred', place' := LinkOut(link, c, k), PredOut(pred, c, k), place[c[k] := FREE];
    var heads', ch' := if k == 0 then heads[w := After(c, 0, NIL)] else heads, ch[w := Without(c, k)];
    hide Placed, LinkOut, PredOut, Without;
    forall v | 0 <= v < |heads'|
      ensures ChainOf(link', pred', heads', ch', place', v)
    {
      assert ChainOf(link, pred, heads, ch, place, v);
      if v != w {
        PlacedElsewhere(link, link', pred, pred', heads[v], ch[v], place, place', v);
      }
    }
  }

  // ---- who has what ----

  // A block is on a chain exactly when a process has it.
  ghost predicate Shared(owner: seq<int>, place: seq<int>, procs: int, chains: int) {
    && |place| == |owner|
    && (forall e :: 0 <= e < |owner| ==> owner[e] == FREE || 0 <= owner[e] < procs)
    && (forall e :: 0 <= e < |owner| ==> place[e] == FREE || 0 <= place[e] < chains)
    && (forall e :: 0 <= e < |owner| ==> (place[e] == FREE <==> owner[e] == FREE))
  }

  // Two different blocks of a process have different bits.
  ghost predicate OwnBits(owner: seq<int>, mask: seq<int>) {
    && |mask| == |owner|
    && forall e, f :: 0 <= e < f < |owner| && owner[e] != FREE && owner[e] == owner[f] ==> mask[e] != mask[f]
  }

  // The bits of a process: those of its blocks, and those of its completed blocks.
  ghost predicate BitsOf(owner: seq<int>, place: seq<int>, mask: seq<int>, bits: set<int>, flg: set<int>, p: int)
    requires |place| == |mask| == |owner|
  {
    && flg <= bits
    && (forall e :: 0 <= e < |owner| && owner[e] == p ==> mask[e] in bits && (mask[e] in flg <==> place[e] == ZLR))
    && (forall b :: b in bits ==> exists e :: 0 <= e < |owner| && owner[e] == p && mask[e] == b)
  }

  ghost predicate Masks(owner: seq<int>, place: seq<int>, mask: seq<int>, evbits: seq<set<int>>, evflg: seq<set<int>>) {
    && |place| == |owner| && OwnBits(owner, mask) && |evflg| == |evbits|
    && forall p :: 0 <= p < |evbits| ==> BitsOf(owner, place, mask, evbits[p], evflg[p], p)
  }

  /** A new block of a process: a bit that was not in use, waiting or completed at once. */
  lemma MasksTaken(owner: seq<int>, place: seq<int>, mask: seq<int>, evbits: seq<set<int>>, evflg: seq<set<int>>,
                   e: int, p: int, b: int, w: int)
    requires Masks(owner, place, mask, evbits, evflg)
    requires 0 <= e < |owner| && owner[e] == FREE && 0 <= p < |evbits| && b !in evbits[p]
    ensures Masks(owner[e := p], place[e := w], mask[e := b], evbits[p := evbits[p] + {b}],
                  if w == ZLR then evflg[p := evflg[p] + {b}] else evflg)
  {
    var owner', place', mask' := owner[e := p], place[e := w], mask[e := b];
    var bits', flg' := evbits[p := evbits[p] + {b}], if w == ZLR then evflg[p := evflg[p] + {b}] else evflg;
    assert BitsOf(owner, place, mask, evbits[p], evflg[p], p);
    forall q | 0 <= q < |evbits|
      ensures BitsOf(owner', place', mask', bits'[q], flg'[q], q)
    {
      assert BitsOf(owner, place, mask, evbits[q], evflg[q], q);
      forall c | c in bits'[q]
        ensures exists f :: 0 <= f < |owner'| && owner'[f] == q && mask'[f] == c
      {
        if c in evbits[q] {
          var f :| 0 <= f < |owner| && owner[f] == q && mask[f] == c;
          assert owner'[f] == q && mask'[f] == c;
        } else {
          assert owner'[e] == q && mask'[e] == c;
        }
      }
    }
  }

  /** A waiting block completes. */
  lemma MasksCompleted(owner: seq<int>, place: seq<int>, mask: seq<int>, evbits: seq<set<int>>, evflg: seq<set<int>>,
                       e: int)
    requires Masks(owner, place, mask, evbits, evflg)
    requires 0 <= e < |owner| && 0 <= owner[e] < |evbits|
    ensures Masks(owner, place[e := ZLR], mask, evbits, evflg[owner[e] := evflg[owner[e]] + {mask[e]}])
  {
    var p := owner[e];
    var place', flg' := place[e := ZLR], evflg[p := evflg[p] + {mask[e]}];
    forall q | 0 <= q < |evbits|
      ensures BitsOf(owner, place', mask, evbits[q], flg'[q], q)
    {
      assert BitsOf(owner, place, mask, evbits[q], evflg[q], q);
    }
  }

  /** A block is given back, and its bit with it. */
  lemma MasksGiven(owner: seq<int>, place: seq<int>, mask: seq<int>, evbits: seq<set<int>>, evflg: seq<set<int>>,
                   e: int)
    requires Masks(owner, place, mask, evbits, evflg)
    requires 0 <= e < |owner| && 0 <= owner[e] < |evbits|
    ensures
      var p, b := owner[e], mask[e];
      Masks(owner[e := FREE], place[e := FREE], mask, evbits[p := evbits[p] - {b}], evflg[p := evflg[p] - {b}])
  {
    var p, b := owner[e], mask[e];
    var owner', place' := owner[e := FREE], place[e := FREE];
    var bits', flg' := evbits[p := evbits[p] - {b}], evflg[p := evflg[p] - {b}];
    forall q | 0 <= q < |evbits|
      ensures BitsOf(owner', place', mask, bits'[q], flg'[q], q)
    {
      assert BitsOf(owner, place, mask, evbits[q], evflg[q], q);
      forall c | c in bits'[q]
        ensures exists f :: 0 <= f < |owner'| && owner'[f] == q && mask[f] == c
      {
        var f :| 0 <= f < |owner| && owner[f] == q && mask[f] == c;
        assert owner'[f] == q && mask[f] == c;
      }
    }
  }
}
