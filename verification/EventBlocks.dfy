/** Starting, completing, returning, cancelling events; waiting for one or for several (aes/gemasync.c, gemevlib.c). */
module EventBlocks {
  import opened Chains
  import opened EventLists
  import opened EventTable
  import opened ListCount

  const MAX_EVENTS: int := 16  // bits of an event mask

  datatype Found = NotFound | NotComplete | Returned

  class EventKernel {
    var nextp: seq<int>        // e_nextp
    var link: seq<int>         // e_link
    var pred: seq<int>         // e_pred
    var mask: seq<int>         // e_mask, as the number of its bit
    var owner: seq<int>        // e_pd, or FREE
    var place: seq<int>        // the chain a block is on, or FREE; ZLR is the COMPLETE flag
    var eul: int
    var evlist: seq<int>       // p_evlist of every process
    var heads: seq<int>        // the roots of the chains
    var evbits: seq<set<int>>  // p_evbits of every process
    var evflg: seq<set<int>>   // p_evflg of every process
    ghost var g: Owned
    ghost var ch: seq<seq<int>>

    ghost predicate NextOk()
      reads this`nextp, this`eul, this`evlist, this`g, this`owner
    {
      NextLists(nextp, eul, evlist, g, owner)
    }

    ghost predicate WaitOk()
      reads this`link, this`pred, this`heads, this`ch, this`place
    {
      WaitLists(link, pred, heads, ch, place)
    }

    ghost predicate Valid()
      reads this
    {
      && NextOk() && WaitOk() && |nextp| == |link| && |heads| > 0
      && Shared(owner, place, |evlist|, |heads|)
      && Masks(owner, place, mask, evbits, evflg) && |evbits| == |evlist|
    }

    // All n blocks are free; no process waits.
    constructor (n: nat, procs: nat, chains: nat)
      requires chains > 0
      ensures Valid() && |owner| == n && |evbits| == procs && |heads| == chains
      ensures |g.free| == n && forall e :: 0 <= e < n ==> owner[e] == FREE
      ensures forall p :: 0 <= p < procs ==> evbits[p] == {}
    {
      nextp, eul := seq(n, i => i - 1), n - 1;
      link, pred, mask := seq(n, _ => NIL), seq(n, _ => NIL), seq(n, _ => 0);
      owner, place := seq(n, _ => FREE), seq(n, _ => FREE);
      evlist, evbits, evflg := seq(procs, _ => NIL), seq(procs, _ => {}), seq(procs, _ => {});
      heads := seq(chains, _ => NIL);
      g := Owned(seq(n, i => n - 1 - i), seq(procs, _ => []));
      ch := seq(chains, _ => []);
      new;
      forall e | 0 <= e < n
        ensures e in g.free
      {
        assert g.free[n - 1 - e] == e;
      }
    }

    lemma Sizes()
      requires Valid()
      ensures |owner| == |place| == |mask| == |nextp| == |link| == |pred|
      ensures |g.el| == |evlist| == |evbits| == |evflg| && |ch| == |heads|
      ensures InArena(g.free, |nextp|) && (eul == NIL <==> g.free == [])
    {
      HoldsFacts(nextp, eul, g.free, owner, FREE);
    }

    /** A block is on the free list or with one process, and then on exactly one chain. */
    lemma Somewhere(e: int)
      requires Valid() && 0 <= e < |owner|
      ensures |place| == |owner|
      ensures owner[e] == FREE <==> e in g.free
      ensures owner[e] == FREE <==> place[e] == FREE
      ensures owner[e] != FREE ==> 0 <= owner[e] < |evlist| == |g.el| && e in g.el[owner[e]]
      ensures place[e] != FREE ==> 0 <= place[e] < |heads| == |ch| && e in ch[place[e]]
      ensures forall p :: 0 <= p < |g.el| && e in g.el[p] ==> owner[e] == p
      ensures forall w :: 0 <= w < |ch| && e in ch[w] ==> place[e] == w
    {
      HoldsFacts(nextp, eul, g.free, owner, FREE);
      forall p | 0 <= p < |g.el|
        ensures e in g.el[p] <==> owner[e] == p
      {
        assert ListOf(nextp, evlist, g, owner, p);
        HoldsFacts(nextp, evlist[p], g.el[p], owner, p);
      }
      forall w | 0 <= w < |ch|
        ensures e in ch[w] <==> place[e] == w
      {
        assert ChainOf(link, pred, heads, ch, place, w);
        PlacedFacts(link, pred, heads[w], ch[w], place, w);
      }
    }

    /** The free blocks are all blocks less those that the processes hold. */
    lemma FreeLeft()
      requires Valid()
      ensures |g.free| == |owner| - Nodes([], g.el)
    {
      forall p {:trigger g.el[p]} | 0 <= p < |g.el|
        ensures Holds(nextp, evlist[p], g.el[p], owner, p)
      {
        assert ListOf(nextp, evlist, g, owner, p);
      }
      hide Holds, WaitLists, Masks;
      AllNodes(nextp, eul, evlist, g.free, g.el, owner);
      NodesSplit(g.free, g.el);
    }

    /** With m blocks for each process, one is given all of its m as long as none has more than m. */
    lemma EnoughEach(m: nat, p: nat)
      requires Valid() && |owner| == m * |evlist| && p < |g.el| && forall q :: 0 <= q < |g.el| ==> |g.el[q]| <= m
      ensures |g.free| >= m - |g.el[p]|
    {
      FreeLeft();
      NodesAtMost(g.el, m, p);
    }

    // ---- single steps ----

    // The first free block goes to process p.
    method GetEvb(p: int) returns (e: int)
      requires NextOk() && 0 <= p < |evlist| && g.free != []
      modifies this`nextp, this`eul, this`evlist, this`owner, this`g
      ensures NextOk() && e == old(eul) && 0 <= e < |old(owner)| && old(owner)[e] == FREE
      ensures owner == old(owner)[e := p] && |nextp| == |old(nextp)| && |evlist| == |old(evlist)|
      ensures g.free == old(g.free)[1..] && e == old(g.free)[0]
    {
      TakeLists(nextp, eul, evlist, g, owner, p);
      e := eul;
      eul := nextp[e];
      nextp := nextp[e := evlist[p]];
      evlist := evlist[p := e];
      owner := owner[e := p];
      g := Owned(g.free[1..], g.el[p := [e] + g.el[p]]);
    }

    // The k-th block of process p goes back to the free list; q is the one in front of it, or ROOT.
    method FreeEvb(p: int, e: int, q: int, ghost k: nat)
      requires NextOk() && 0 <= p < |evlist| == |g.el| && k < |g.el[p]| && e == g.el[p][k] && q == Pred(g.el[p], k)
      modifies this`nextp, this`eul, this`evlist, this`owner, this`g
      ensures NextOk() && 0 <= e < |old(owner)| && old(owner)[e] == p && owner == old(owner)[e := FREE]
      ensures |nextp| == |old(nextp)| && |evlist| == |old(evlist)|
      ensures |g.el| == |old(g.el)| && g.el[p] == Without(old(g.el[p]), k)
    {
      GiveLists(nextp, eul, evlist, g, owner, p, k);
      assert k > 0 ==> 0 <= g.el[p][k - 1] < |nextp|;
      if q == ROOT {
        evlist := evlist[p := nextp[e]];
      } else {
        nextp := nextp[q := nextp[e]];
      }
      nextp := nextp[e := eul];
      eul := e;
      owner := owner[e := FREE];
      g := Owned([e] + g.free, g.el[p := Without(g.el[p], k)]);
    }

    // Puts a block into chain w: evinsert, when q is ROOT; behind block q otherwise.
    method PutInto(e: int, w: int, q: int)
      requires WaitOk() && 0 <= w < |heads| && 0 <= e < |place| && place[e] == FREE
      requires q == ROOT || (0 <= q < |place| && place[q] == w)
      modifies this`link, this`pred, this`heads, this`place, this`ch
      ensures WaitOk() && place == old(place)[e := w] && |link| == |old(link)| && |heads| == |old(heads)|
      ensures PutBehind(old(ch), ch, w, q, e)
    {
      ghost var c := ch[w];
      assert ChainOf(link, pred, heads, ch, place, w);
      PlacedFacts(link, pred, heads[w], c, place, w);
      ghost var k: nat := 0;
      if q != ROOT {
        ghost var j: nat :| j < |c| && c[j] == q;
        k := j + 1;
        PlacedAt(link, pred, heads[w], c, place, w, j);
      }
      InsertLists(link, pred, heads, ch, place, w, k, e);
      PutBehindAt(ch, w, k, e);
      ghost var l0, p0 := link, pred;
      hide WaitLists, InArena, Distinct, Placed, PutBehind;
      var p := if q == ROOT then heads[w] else link[q];
      assert p == if k < |c| then c[k] else NIL;
      if k < |c| {
        InArenaAt(c, |link|, k);
      }
      pred := pred[e := q];
      link := link[e := p];
      if q == ROOT {
        heads := heads[w := e];
      } else {
        link := link[q := e];
      }
      if p != NIL {
        pred := pred[p := e];
      }
      assert link == LinkIn(l0, c, k, e) && pred == PredIn(p0, c, k, e);
      ch := ch[w := Inserted(c, k, e)];
      place := place[e := w];
    }

    // Takes a block out of its chain.
    method TakeOut(e: int)
      requires WaitOk() && 0 <= e < |place| && 0 <= place[e] < |heads|
      modifies this`link, this`pred, this`heads, this`place, this`ch
      ensures WaitOk() && place == old(place)[e := FREE] && |link| == |old(link)| && |heads| == |old(heads)|
    {
      var w := place[e];
      ghost var c := ch[w];
      assert ChainOf(link, pred, heads, ch, place, w);
      PlacedFacts(link, pred, heads[w], c, place, w);
      ghost var k: nat :| k < |c| && c[k] == e;
      PlacedAt(link, pred, heads[w], c, place, w, k);
      UnlinkLists(link, pred, heads, ch, place, w, k);
      ghost var l0, p0 := link, pred;
      hide WaitLists, InArena, Distinct, Placed;
      var q, p := pred[e], link[e];
      if q == ROOT {
        heads := heads[w := p];
      } else {
        link := link[q := p];
      }
      if p != NIL {
        pred := pred[p := q];
      }
      assert link == LinkOut(l0, c, k) && pred == PredOut(p0, c, k);
      ch := ch[w := Without(c, k)];
      place := place[e := FREE];
    }

    // ---- events ----

    // The lowest bit that no event of the process uses.
    method FreeBit(p: int) returns (b: int)
      requires 0 <= p < |evbits| && exists c :: 0 <= c < MAX_EVENTS && c !in evbits[p]
      ensures 0 <= b < MAX_EVENTS && b !in evbits[p] && forall c :: 0 <= c < b ==> c in evbits[p]
    {
      b := 0;
      while b in evbits[p]
        invariant 0 <= b < MAX_EVENTS && forall c :: 0 <= c < b ==> c in evbits[p]
        invariant exists c :: b <= c < MAX_EVENTS && c !in evbits[p]
        decreases MAX_EVENTS - b
      {
        b := b + 1;
      }
    }

    /**
     iasync: starts an event of process p with a bit of its own. It waits on chain w, at the front or behind block q, or
     is completed at once when w is ZLR. With no block left the source goes on with a NULL one (ok is false).
     */
    method Iasync(p: int, w: int, q: int) returns (b: int, ok: bool)
      requires Valid() && 0 <= p < |evbits| && 0 <= w < |heads|
      requires exists c :: 0 <= c < MAX_EVENTS && c !in evbits[p]
      requires q == ROOT || (0 <= q < |place| && place[q] == w)
      modifies this
      ensures ok <==> old(g.free) != []
      ensures !ok ==> unchanged(this)
      ensures Valid() && |evbits| == |old(evbits)| && |heads| == |old(heads)|
      ensures ok ==> 0 <= b < MAX_EVENTS && b !in old(evbits)[p] && forall c :: 0 <= c < b ==> c in old(evbits)[p]
      ensures ok ==> PutBehind(old(ch), ch, w, q, old(eul))
      ensures ok ==> g.free == old(g.free)[1..] && old(eul) == old(g.free)[0]
      ensures ok ==>
        var e := old(eul);
        && 0 <= e < |old(owner)| == |old(place)| == |old(mask)| && old(owner)[e] == FREE
        && owner == old(owner)[e := p] && place == old(place)[e := w] && mask == old(mask)[e := b]
      ensures ok ==> evbits == old(evbits)[p := old(evbits)[p] + {b}]
      ensures |old(evflg)| == |old(evbits)|
      ensures ok ==> evflg == if w == ZLR then old(evflg)[p := old(evflg)[p] + {b}] else old(evflg)
    {
      hide NextLists, WaitLists, Masks, OwnBits;
      Sizes();
      b, ok := 0, eul != NIL;
      if !ok {
        return;
      }
      FreePlaces();
      var e := GetEvb(p);
      b := FreeBit(p);
      MasksTaken(old(owner), place, mask, evbits, evflg, e, p, b, w);
      Sizes2(old(owner), place, mask, evbits, evflg);
      mask := mask[e := b];
      evbits := evbits[p := evbits[p] + {b}];
      PutInto(e, w, q);
      if w == ZLR {
        evflg := evflg[p := evflg[p] + {b}];
      }
    }

    /** evremove and zombie: an event that waits completes; its process is told. */
    method Complete(e: int)
      requires Valid() && 0 <= e < |place| && place[e] != FREE && place[e] != ZLR
      modifies this`link, this`pred, this`heads, this`place, this`ch, this`evflg
      ensures Valid() && |heads| == |old(heads)|
      ensures place == old(place)[e := ZLR]
      ensures |owner| == |old(place)| && 0 <= owner[e] < |old(evflg)| && |mask| == |owner|
      ensures evflg == old(evflg)[owner[e] := old(evflg)[owner[e]] + {mask[e]}]
    {
      Sizes();
      hide NextLists, WaitLists, Masks;
      MasksCompleted(owner, place, mask, evbits, evflg, e);
      TakeOut(e);
      PutInto(e, ZLR, ROOT);
      evflg := evflg[owner[e] := evflg[owner[e]] + {mask[e]}];
      assert place == old(place)[e := ZLR];
    }

    // The block of process p with a bit.
    method Lookup(p: int, b: int) returns (e: int, q: int, ghost k: nat)
      requires Valid() && 0 <= p < |evlist|
      ensures e == NIL <==> b !in evbits[p]
      ensures |g.el| == |evlist| && (e != NIL ==> k < |g.el[p]| && e == g.el[p][k] && q == Pred(g.el[p], k))
      ensures e != NIL ==> 0 <= e < |owner| == |mask| == |place| && owner[e] == p && mask[e] == b
    {
      Sizes();
      assert ListOf(nextp, evlist, g, owner, p);
      ghost var c := g.el[p];
      HoldsFacts(nextp, evlist[p], c, owner, p);
      e, q, k := evlist[p], ROOT, 0;
      while e != NIL
        invariant k <= |c| && e == (if k < |c| then c[k] else NIL) && q == Pred(c, k)
        invariant forall i :: 0 <= i < k ==> mask[c[i]] != b
        decreases |c| - k
      {
        NextOf(p, k);
        if mask[e] == b {
          assert BitsOf(owner, place, mask, evbits[p], evflg[p], p);
          return;
        }
        q := e;
        e := nextp[e];
        k := k + 1;
      }
      assert BitsOf(owner, place, mask, evbits[p], evflg[p], p);
    }

    lemma NextOf(p: int, k: nat)
      requires Valid() && 0 <= p < |evlist| == |g.el| && k < |g.el[p]|
      ensures
        var e := g.el[p][k];
        0 <= e < |nextp| == |owner| && owner[e] == p && nextp[e] == After(g.el[p], k, NIL)
    {
      assert ListOf(nextp, evlist, g, owner, p);
      assert Linked(nextp, g.el[p], NIL);
    }

    // Is the block on the list of completed events?
    method OnZlr(e: int) returns (found: bool)
      requires Valid() && 0 <= e < |place|
      ensures found <==> place[e] == ZLR
    {
      assert ChainOf(link, pred, heads, ch, place, ZLR);
      ghost var c := ch[ZLR];
      PlacedFacts(link, pred, heads[ZLR], c, place, ZLR);
      var pz := heads[ZLR];
      ghost var k: nat := 0;
      while pz != e && pz != NIL
        invariant k <= |c| && pz == (if k < |c| then c[k] else NIL)
        invariant e !in c[..k]
        decreases |c| - k
      {
        assert c[..k + 1] == c[..k] + [c[k]];
        ZlrNext(k);
        pz := link[pz];
        k := k + 1;
      }
      found := pz != NIL;
      if found {
        assert c[k] == e;
      } else {
        assert c[..k] == c;
      }
    }

    lemma ZlrNext(k: nat)
      requires Valid() && |ch| == |heads| && k < |ch[ZLR]|
      ensures 0 <= ch[ZLR][k] < |link| && link[ch[ZLR][k]] == After(ch[ZLR], k, NIL)
    {
      assert ChainOf(link, pred, heads, ch, place, ZLR);
      PlacedAt(link, pred, heads[ZLR], ch[ZLR], place, ZLR, k);
    }

    /** aret: gives the block of a completed event back. */
    method Aret(p: int, b: int) returns (r: Found)
      requires Valid() && 0 <= p < |evbits|
      modifies this
      ensures Valid() && |evbits| == |old(evbits)| && |heads| == |old(heads)| && mask == old(mask)
      ensures |old(evflg)| == |old(evbits)|
      ensures r == if b !in old(evbits)[p] then NotFound else if b !in old(evflg)[p] then NotComplete else Returned
      ensures r != Returned ==>
        owner == old(owner) && place == old(place) && evbits == old(evbits) && evflg == old(evflg)
      ensures r == Returned ==>
        && evbits == old(evbits)[p := old(evbits)[p] - {b}] && evflg == old(evflg)[p := old(evflg)[p] - {b}]
        && exists e :: 0 <= e < |old(owner)| == |old(place)| == |mask| && old(owner)[e] == p && mask[e] == b
                       && owner == old(owner)[e := FREE] && place == old(place)[e := FREE]
    {
      Sizes();
      hide NextLists, WaitLists, OwnBits;
      var e, q;
      ghost var k;
      assert BitsOf(owner, place, mask, evbits[p], evflg[p], p);
      e, q, k := Lookup(p, b);
      if e == NIL {
        return NotFound;
      }
      var done := OnZlr(e);
      if !done {
        return NotComplete;
      }
      MasksGiven(owner, place, mask, evbits, evflg, e);
      hide Masks;
      TakeOut(e);
      FreeEvb(p, e, q, k);
      evbits := evbits[p := evbits[p] - {b}];
      evflg := evflg[p := evflg[p] - {b}];
      r := Returned;
    }

    // The k-th block of process p is taken back, still waiting.
    method Withdraw(p: int, e: int, q: int, ghost k: nat)
      requires Valid() && 0 <= p < |evlist| == |g.el| && k < |g.el[p]| && e == g.el[p][k] && q == Pred(g.el[p], k)
      requires 0 <= e < |owner| == |place| == |mask| && owner[e] == p && place[e] != ZLR
      modifies this
      ensures Valid() && |evbits| == |old(evbits)| && |heads| == |old(heads)| && mask == old(mask)
      ensures evflg == old(evflg)
      ensures |g.el| == |evbits| && g.el[p] == Without(old(g.el[p]), k)
      ensures owner == old(owner)[e := FREE] && place == old(place)[e := FREE]
      ensures evbits == old(evbits)[p := old(evbits)[p] - {mask[e]}]
    {
      Sizes();
      hide NextLists, WaitLists, OwnBits;
      assert place[e] != FREE && 0 <= place[e] < |heads|;
      assert BitsOf(owner, place, mask, evbits[p], evflg[p], p);
      assert evflg[p] - {mask[e]} == evflg[p];
      MasksGiven(owner, place, mask, evbits, evflg, e);
      assert evflg[p := evflg[p]] == evflg;
      hide Masks;
      TakeOut(e);
      FreeEvb(p, e, q, k);
      evbits := evbits[p := evbits[p] - {mask[e]}];
    }

    /** acancel: takes back the events that have not completed yet; the bits of the others are returned. */
    method Acancel(p: int, m: set<int>) returns (m1: set<int>)
      requires Valid() && 0 <= p < |evbits|
      modifies this
      ensures Valid() && |evbits| == |old(evbits)| && |heads| == |old(heads)| && mask == old(mask)
      ensures evflg == old(evflg)
      ensures |evflg| == |evbits| && m1 == m * evflg[p]
      ensures Cancelled(old(owner), old(place), owner, place, mask, p, m)
      ensures forall e :: 0 <= e < |owner| == |place| == |mask| && owner[e] == p && mask[e] in m ==> place[e] == ZLR
    {
      hide NextLists, WaitLists, Masks, OwnBits, Cancelled, Shared;
      Sizes();
      NothingCancelled(owner, place, mask, p, m);
      m1 := {};
      var e, q := evlist[p], ROOT;
      ghost var k: nat := 0;
      FirstOf(p);
      while e != NIL
        invariant Valid() && |evbits| == |old(evbits)| == |g.el| == |evlist| && |heads| == |old(heads)|
        invariant mask == old(mask) && evflg == old(evflg) && |owner| == |place| == |mask| && |evflg| == |evbits|
        invariant k <= |g.el[p]| && e == (if k < |g.el[p]| then g.el[p][k] else NIL) && q == Pred(g.el[p], k)
        invariant Cancelled(old(owner), old(place), owner, place, mask, p, m)
        invariant forall i :: 0 <= i < k ==> Kept(place, mask, m, m1, g.el[p][i])
        invariant m1 <= m * evflg[p]
        decreases |g.el[p]| - k
      {
        Sizes();
        NextOf(p, k);
        BitsHere(p, e);
        var next := nextp[e];
        if mask[e] in m && place[e] != ZLR {
          CancelOne(old(owner), old(place), owner, place, mask, p, m, e);
          ghost var c := g.el[p];
          Withdraw(p, e, q, k);
          assert forall i :: 0 <= i < k ==> g.el[p][i] == c[i];
          Sizes();
          e := next;
        } else {
          if mask[e] in m {
            m1 := m1 + {mask[e]};
          }
          q := e;
          e := next;
          k := k + 1;
        }
      }
      if k < |g.el[p]| {
        NextOf(p, k);
      }
      AllKept(p, m, m1);
    }

    lemma FirstOf(p: int)
      requires Valid() && 0 <= p < |evlist| == |g.el|
      ensures evlist[p] == Head(g.el[p], NIL)
    {
      assert ListOf(nextp, evlist, g, owner, p);
    }

    lemma BitsHere(p: int, e: int)
      requires Valid() && 0 <= p < |evbits| && 0 <= e < |owner| && owner[e] == p
      ensures |owner| == |mask| == |place| && |evflg| == |evbits| && mask[e] in evbits[p]
      ensures mask[e] in evflg[p] <==> place[e] == ZLR
    {
      assert BitsOf(owner, place, mask, evbits[p], evflg[p], p);
    }

    lemma AllKept(p: int, m: set<int>, m1: set<int>)
      requires Valid() && 0 <= p < |evbits| && |owner| == |place| == |mask| && |g.el| == |evflg| == |evbits|
      requires forall i :: 0 <= i < |g.el[p]| ==> Kept(place, mask, m, m1, g.el[p][i])
      requires m1 <= m * evflg[p]
      ensures m1 == m * evflg[p]
      ensures forall e :: 0 <= e < |owner| && owner[e] == p && mask[e] in m ==> place[e] == ZLR
    {
      assert ListOf(nextp, evlist, g, owner, p);
      HoldsFacts(nextp, evlist[p], g.el[p], owner, p);
      forall e | 0 <= e < |owner| && owner[e] == p
        ensures Kept(place, mask, m, m1, e)
      {
        var i :| 0 <= i < |g.el[p]| && g.el[p][i] == e;
      }
      assert BitsOf(owner, place, mask, evbits[p], evflg[p], p);
      forall b | b in m * evflg[p]
        ensures b in m1
      {
        var e :| 0 <= e < |owner| && owner[e] == p && mask[e] == b;
        assert Kept(place, mask, m, m1, e);
      }
    }

    // ---- waiting ----

    /**
     mwait: while the process waits, the events in env complete, as far as they are waiting for anything. ok tells
     whether one of the wanted bits came; otherwise the process still waits.
     */
    method Mwait(p: int, want: set<int>, env: seq<int>) returns (ok: bool, which: set<int>)
      requires Valid() && 0 <= p < |evbits|
      modifies this`link, this`pred, this`heads, this`place, this`ch, this`evflg
      ensures Valid() && |heads| == |old(heads)|
      ensures |evflg| == |evbits| && which == evflg[p] && (ok <==> want * evflg[p] != {})
      ensures |old(evflg)| == |old(evbits)|
      ensures place == if want * old(evflg)[p] == {} then Passed(old(place), env) else old(place)
      ensures |place| == |old(place)| && forall e :: 0 <= e < |place| ==>
        place[e] == if want * old(evflg)[p] ==
          {} && e in env && old(place)[e] !in {FREE, ZLR} then ZLR else old(place)[e]
    {
      hide NextLists, WaitLists, Masks, Shared, Passed;
      Sizes();
      PassedNone(place);
      PassedAt(place, env);
      if want * evflg[p] == {} {
        for i := 0 to |env|
          invariant Valid() && |heads| == |old(heads)| && place == Passed(old(place), env[..i])
        {
          Sizes();
          PassedMore(old(place), env, i);
          if 0 <= env[i] < |place| && place[env[i]] != FREE && place[env[i]] != ZLR {
            Complete(env[i]);
          }
        }
        assert env[..|env|] == env;
      }
      Sizes();
      which := evflg[p];
      ok := want * evflg[p] != {};
    }

    /**
     ev_block: waits for one event, if there is a block for it. When it returns, every block belongs to whom it belonged
     before.
     */
    method EvBlock(p: int, w: int, q: int, env: seq<int>) returns (ok: bool, enough: bool)
      requires Valid() && 0 <= p < |evbits| && 0 <= w < |heads|
      requires exists c :: 0 <= c < MAX_EVENTS && c !in evbits[p]
      requires q == ROOT || (0 <= q < |place| && place[q] == w)
      modifies this
      ensures Valid() && (enough <==> old(g.free) != []) && (!enough ==> unchanged(this))
      ensures ok <==> enough && (w == ZLR || old(eul) in env)
      ensures ok ==> owner == old(owner) && evbits == old(evbits)
      ensures ok ==> place == if w == ZLR then old(place) else Passed(old(place), env)
    {
      hide NextLists, WaitLists, Masks, Shared, OwnBits;
      Sizes();
      ghost var e0, owner0, mask0, place0 := eul, owner, mask, place;
      FreePlaces();
      var msk;
      msk, enough := Iasync(p, w, q);
      if !enough {
        return false, false;
      }
      var which;
      BitsHere(p, e0);
      assert msk in evflg[p] <==> w == ZLR;
      assert {msk} * evflg[p] == if msk in evflg[p] then {msk} else {};
      ok, which := Mwait(p, {msk}, env);
      Sizes();
      assert owner[e0] == p && mask[e0] == msk;
      BitsHere(p, e0);
      assert {msk} * evflg[p] == if msk in evflg[p] then {msk} else {};
      if !ok {
        return;
      }
      assert msk in {msk} * evflg[p];
      ghost var owner1 := owner;
      OneOwner(p, e0);
      var r := Aret(p, msk);
      assert owner == owner1[e0 := FREE];
      assert owner == owner0;
      assert place == if w == ZLR then place0 else Passed(place0, env);
      assert evbits == old(evbits) by {
        assert old(evbits)[p] + {msk} - {msk} == old(evbits)[p];
        assert old(evbits)[p := old(evbits)[p]] == old(evbits);
      }
    }

    lemma OneOwner(p: int, e: int)
      requires Valid() && 0 <= p < |evbits| && 0 <= e < |owner| && owner[e] == p
      ensures |mask| == |owner|
      ensures forall f :: 0 <= f < |owner| && owner[f] == p && mask[f] == mask[e] ==> f == e
    {
    }

    // The return of the event of request j, if it has completed.
    method ReturnOne(p: int, masks: seq<int>, which: set<int>, j: nat, what0: set<int>, ghost owner0: seq<int>,
                     ghost mask0: seq<int>, ghost es: seq<int>, ghost place1: seq<int>)
      returns (what: set<int>)
      requires Valid() && 0 <= p < |evbits| && |mask| == |owner| && j < |masks|
      requires Ended(owner0, mask0, owner, mask, es, masks, which, p, j) && Others(place1, place, es)
      requires Told(what0, masks, which, j)
      requires |evflg| == |evbits| && forall i :: j <= i < |masks| && masks[i] in which ==> masks[i] in evflg[p]
      modifies this
      ensures Valid() && |evbits| == |old(evbits)| && |mask| == |owner|
      ensures Ended(owner0, mask0, owner, mask, es, masks, which, p, j + 1) && Others(place1, place, es)
      ensures Told(what, masks, which, j + 1)
      ensures |evflg| == |evbits| && forall i :: j < i < |masks| && masks[i] in which ==> masks[i] in evflg[p]
    {
      hide NextLists, WaitLists, Masks, Shared, OwnBits, Ended, Others, Told;
      what := what0;
      Sizes();
      EndOf(p, owner0, mask0, es, masks, which, j);
      ToldNext(what, masks, which, j);
      if masks[j] in which {
        what := what + {j};
        ghost var e, owner2, place3 := es[j], owner, place;
        BitsHere(p, e);
        OneOwner(p, e);
        var r := Aret(p, masks[j]);
        assert owner == owner2[e := FREE] && place == place3[e := FREE];
        EndedNext(owner0, mask0, owner2, owner, mask, es, masks, which, p, j);
        OthersNext(place1, place3, es, j);
      } else {
        EndedNext(owner0, mask0, owner, owner, mask, es, masks, which, p, j);
      }
    }

    /**
     ev_multi, when nothing asked for has happened yet: one event for each request, in their order, as long as there are
     blocks (enough tells whether that was so to the end); then a wait for any of them. When it returns, every block
     belongs to whom it belonged before, and the bits of the process are as found.
     what holds the requests that were met.
     */
    method EvMulti(p: int, reqs: seq<Request>, env: seq<int>) returns (ok: bool, enough: bool, what: set<int>)
      requires Valid() && 0 <= p < |evbits| && |evbits[p]| + |reqs| <= MAX_EVENTS
      requires forall i :: 0 <= i < |reqs| ==> 0 <= reqs[i].w < |heads|
      modifies this
      ensures Valid() && |evbits| == |old(evbits)| && |owner| == |old(owner)|
      ensures (enough <==> |reqs| <= |old(g.free)|) && |old(g.free)| == |old(owner)| - Nodes([], old(g.el))
      ensures !enough ==> g.free == []
      ensures enough && !ok ==>
        && g.free == old(g.free)[|reqs|..] && |heads| == |old(heads)|
        && forall q :: 0 <= q < |evbits| && q != p ==> evbits[q] == old(evbits)[q]
      ensures ok <==> enough && exists i :: 0 <= i < |reqs| && Met(reqs, old(g.free), env, i)
      ensures ok ==> owner == old(owner) && evbits == old(evbits)
      ensures ok ==> place == if AtOnce(reqs) then old(place) else Passed(old(place), env)
      ensures ok ==> forall i :: i in what <==> 0 <= i < |reqs| && Met(reqs, old(g.free), env, i)
    {
      hide NextLists, WaitLists, Masks, Shared, OwnBits, Cancelled, Started, Ended, Passed, PutOn, Others, Met, AtOnce,
        Told, Nodes, InArena;
      Sizes();
      ghost var owner0, place0, mask0, bits0, flg0, free0 := owner, place, mask, evbits, evflg, g.free;
      FreePlaces();
      what := {};
      var masks, wmask, which;
      ghost var es;
      FreeLeft();
      masks, wmask, enough, es := StartAll(p, reqs);
      if !enough {
        return false, false, {};
      }
      StartedBits(p, owner0, mask0, bits0[p], place0, es, masks, wmask, reqs);
      ghost var place2 := place;
      ok, which := Mwait(p, wmask, env);
      MetBits(p, owner0, mask0, bits0[p], place0, place2, es, masks, wmask, reqs, env);
      MetSame(reqs, es, free0, env);
      if !ok {
        return;
      }
      Sizes();
      ghost var owner1, place1 := owner, place;
      var m1 := Acancel(p, wmask);
      which := which + m1;
      Sizes();
      AfterCancel(p, wmask, owner0, mask0, bits0[p], owner1, place1, es, masks);
      assert which == evflg[p];
      ToldNone(masks, which);
      for j := 0 to |masks|
        invariant Valid() && |evbits| == |old(evbits)| && |mask| == |owner|
        invariant Ended(owner0, mask0, owner, mask, es, masks, which, p, j) && Others(place1, place, es)
        invariant Told(what, masks, which, j)
        invariant |evflg| == |evbits| && forall i :: j <= i < |masks| && masks[i] in which ==> masks[i] in evflg[p]
      {
        what := ReturnOne(p, masks, which, j, what, owner0, mask0, es, place1);
      }
      ToldAll(what, masks, which);
      AllEnded(owner0, mask0, owner, mask, es, masks, which, p);
      SameBits(owner0, place0, mask0, bits0, flg0, place, mask, evbits, evflg);
      AllBack(p, owner0, place0, place2, place1, es, reqs, env);
    }

    lemma FreePlaces()
      requires Valid()
      ensures |place| == |owner| && forall e :: 0 <= e < |owner| ==> (place[e] == FREE <==> owner[e] == FREE)
    {
    }

    // Right after the start, a started event has completed exactly if its chain is that of the completed ones.
    lemma StartedBits(p: int, owner0: seq<int>, mask0: seq<int>, bits0: set<int>, place0: seq<int>, es: seq<int>,
                      masks: seq<int>, wmask: set<int>, reqs: seq<Request>)
      requires Valid() && 0 <= p < |evbits|
      requires Started(owner0, mask0, bits0, owner, mask, es, masks, wmask, p) && PutOn(place0, place, es, reqs)
      requires |es| == |reqs|
      ensures |evflg| == |evbits| && (wmask * evflg[p] == {} <==> !AtOnce(reqs))
    {
      hide NextLists, WaitLists, Shared;
      assert BitsOf(owner, place, mask, evbits[p], evflg[p], p);
      if AtOnce(reqs) {
        var i :| 0 <= i < |reqs| && reqs[i].w == ZLR;
        assert masks[i] in wmask * evflg[p];
      } else {
        forall b | b in wmask
          ensures b !in evflg[p]
        {
          var i :| 0 <= i < |masks| && masks[i] == b;
          assert place[es[i]] == reqs[i].w;
        }
        assert wmask * evflg[p] == {};
      }
    }

    // After the wait, the bits of the started events tell which requests were met.
    lemma MetBits(p: int, owner0: seq<int>, mask0: seq<int>, bits0: set<int>, place0: seq<int>, place2: seq<int>,
                  es: seq<int>,
                  masks: seq<int>, wmask: set<int>, reqs: seq<Request>, env: seq<int>)
      requires Valid() && 0 <= p < |evbits|
      requires Started(owner0, mask0, bits0, owner, mask, es, masks, wmask, p) && PutOn(place0, place2, es, reqs)
      requires |es| == |reqs| && forall i :: 0 <= i < |reqs| ==> reqs[i].w >= 0
      requires place == if AtOnce(reqs) then place2 else Passed(place2, env)
      ensures |evflg| == |evbits| && |masks| == |reqs| == |es|
      ensures forall i :: 0 <= i < |reqs| ==> (masks[i] in evflg[p] <==> Met(reqs, es, env, i))
      ensures wmask * evflg[p] != {} <==> exists i :: 0 <= i < |reqs| && Met(reqs, es, env, i)
    {
      hide NextLists, WaitLists, Shared;
      assert BitsOf(owner, place, mask, evbits[p], evflg[p], p);
      forall i | 0 <= i < |reqs|
        ensures masks[i] in evflg[p] <==> Met(reqs, es, env, i)
      {
        assert place2[es[i]] == reqs[i].w;
      }
      if exists i :: 0 <= i < |reqs| && Met(reqs, es, env, i) {
        var i :| 0 <= i < |reqs| && Met(reqs, es, env, i);
        assert masks[i] in wmask * evflg[p];
      } else {
        forall b | b in wmask
          ensures b !in evflg[p]
        {
          var i :| 0 <= i < |masks| && masks[i] == b;
        }
        assert wmask * evflg[p] == {};
      }
    }

    // When all started events are gone again, the others are where the wait left them.
    lemma AllBack(p: int, owner0: seq<int>, place0: seq<int>, place2: seq<int>, place1: seq<int>, es: seq<int>,
                  reqs: seq<Request>, env: seq<int>)
      requires Valid() && owner == owner0 && |place0| == |owner0|
      requires forall e :: 0 <= e < |owner0| ==> (place0[e] == FREE <==> owner0[e] == FREE)
      requires forall i :: 0 <= i < |es| ==> 0 <= es[i] < |owner0| && owner0[es[i]] == FREE
      requires PutOn(place0, place2, es, reqs) && Others(place1, place, es)
      requires place1 == if AtOnce(reqs) then place2 else Passed(place2, env)
      ensures place == if AtOnce(reqs) then place0 else Passed(place0, env)
    {
      hide NextLists, WaitLists, Masks;
      forall e | 0 <= e < |place|
        ensures place[e] == (if AtOnce(reqs) then place0 else Passed(place0, env))[e]
      {
        if e in es {
        } else {
          assert place[e] == place1[e] && place2[e] == place0[e];
        }
      }
    }

    // Starts the event that a request asks for, behind the block asked for if that is on its chain.
    method StartOne(p: int, r: Request) returns (b: int, ok: bool)
      requires Valid() && 0 <= p < |evbits| && |evbits[p]| < MAX_EVENTS && 0 <= r.w < |heads|
      modifies this
      ensures ok <==> old(g.free) != []
      ensures !ok ==> unchanged(this)
      ensures Valid() && |evbits| == |old(evbits)| && |heads| == |old(heads)|
      ensures ok ==> b !in old(evbits)[p] && evbits == old(evbits)[p := old(evbits)[p] + {b}]
      ensures ok ==> |evbits[p]| == |old(evbits)[p]| + 1
      ensures ok ==> g.free == old(g.free)[1..] && old(eul) == old(g.free)[0]
      ensures ok ==>
        var e := old(eul);
        && 0 <= e < |old(owner)| == |old(place)| == |old(mask)| && old(owner)[e] == FREE
        && owner == old(owner)[e := p] && place == old(place)[e := r.w] && mask == old(mask)[e := b]
    {
      hide NextLists, WaitLists, Masks, Shared, OwnBits;
      Sizes();
      FreeBitExists(evbits[p]);
      var q := if 0 <= r.q < |place| && place[r.q] == r.w then r.q else ROOT;
      b, ok := Iasync(p, r.w, q);
    }

    // Starts the events that the requests ask for, as long as there are blocks.
    method StartAll(p: int, reqs: seq<Request>)
      returns (masks: seq<int>, wmask: set<int>, enough: bool, ghost es: seq<int>)
      requires Valid() && 0 <= p < |evbits| && |evbits[p]| + |reqs| <= MAX_EVENTS
      requires forall i :: 0 <= i < |reqs| ==> 0 <= reqs[i].w < |heads|
      modifies this
      ensures enough <==> |old(g.free)| >= |reqs|
      ensures Valid() && |evbits| == |old(evbits)| && |heads| == |old(heads)| && |owner| == |old(owner)|
      ensures |masks| == |es| && (if enough then |es| == |reqs| else |es| == |old(g.free)|)
      ensures Started(old(owner), old(mask), old(evbits)[p], owner, mask, es, masks, wmask, p)
      ensures forall q :: 0 <= q < |evbits| && q != p ==> evbits[q] == old(evbits)[q]
      ensures es == old(g.free)[..|es|] && g.free == old(g.free)[|es|..] && PutOn(old(place), place, es, reqs)
    {
      hide Valid, Started, PutOn;
      Sizes();
      masks, wmask, es, enough := [], {}, [], true;
      ghost var bits0, place0 := evbits[p], place;
      PutOnNone(place, reqs);
      StartNone(p);
      for i := 0 to |reqs|
        invariant Valid() && |evbits| == |old(evbits)| && |heads| == |old(heads)| && |masks| == i
        invariant |owner| == |old(owner)| && |evbits[p]| + |reqs| - i <= MAX_EVENTS && i <= |old(g.free)|
        invariant evbits == old(evbits)[p := bits0 + wmask]
        invariant Started(old(owner), old(mask), bits0, owner, mask, es, masks, wmask, p)
        invariant es == old(g.free)[..i] && g.free == old(g.free)[i..] && PutOn(place0, place, es, reqs)
      {
        ghost var e, owner1, mask1, place1 := eul, owner, mask, place;
        var b;
        b, enough := StartOne(p, reqs[i]);
        if !enough {
          return;
        }
        StartedNext(old(owner), old(mask), bits0, owner1, mask1, es, masks, wmask, p, e, b);
        PutOnNext(place0, place1, es, reqs, e);
        masks := masks + [b];
        wmask := wmask + {b};
        TakenNext(old(g.free), i);
        es := es + [e];
      }
    }

    lemma StartNone(p: int)
      requires Valid() && 0 <= p < |evbits|
      ensures |owner| == |mask| && Started(owner, mask, evbits[p], owner, mask, [], [], {}, p)
    {
      assert BitsOf(owner, place, mask, evbits[p], evflg[p], p);
    }

    /** After acancel, the events started are exactly the completed ones, and those can be told by their bits. */
    lemma AfterCancel(p: int, wmask: set<int>, owner0: seq<int>, mask0: seq<int>, bits0: set<int>, owner1: seq<int>,
                      place1: seq<int>, es: seq<int>, masks: seq<int>)
      requires Valid() && 0 <= p < |evbits| && |evflg| == |evbits| && |owner| == |place| == |mask|
      requires Started(owner0, mask0, bits0, owner1, mask, es, masks, wmask, p)
      requires Cancelled(owner1, place1, owner, place, mask, p, wmask)
      requires forall e :: 0 <= e < |owner| && owner[e] == p && mask[e] in wmask ==> place[e] == ZLR
      ensures Ended(owner0, mask0, owner, mask, es, masks, evflg[p], p, 0)
      ensures Others(place1, place, es)
    {
      hide NextLists, WaitLists, Shared;
      assert BitsOf(owner, place, mask, evbits[p], evflg[p], p);
      forall i | 0 <= i < |es|
        ensures owner[es[i]] == if masks[i] in evflg[p] then p else FREE
      {
        if owner[es[i]] == FREE && masks[i] in evbits[p] {
          var f :| 0 <= f < |owner| && owner[f] == p && mask[f] == masks[i];
          assert owner1[f] == p;
          StartedUnique(owner0, mask0, bits0, owner1, mask, es, masks, wmask, p, i, f);
        }
      }
      forall e | 0 <= e < |owner| && e !in es
        ensures owner[e] == owner0[e]
        ensures place[e] == place1[e]
      {
        assert owner1[e] == owner0[e] && mask[e] == mask0[e];
      }
    }

    lemma EndOf(p: int, owner0: seq<int>, mask0: seq<int>, es: seq<int>, masks: seq<int>, which: set<int>, j: nat)
      requires Valid() && |mask| == |owner| && Ended(owner0, mask0, owner, mask, es, masks, which, p, j)
      requires j < |masks|
      ensures j < |es| && 0 <= es[j] < |owner| && mask[es[j]] == masks[j] && (masks[j] in which ==> owner[es[j]] == p)
      ensures forall i :: j < i < |masks| ==> masks[i] != masks[j]
    {
    }
  }

  // An event to wait for: the chain it goes to, and the block behind which, if it is on that chain.
  datatype Request = Request(w: int, q: int)

  predicate AtOnce(reqs: seq<Request>) {
    exists i :: 0 <= i < |reqs| && reqs[i].w == ZLR
  }

  // The i-th request, for which the i-th free block is taken, is met: at once, or by what completes during the wait.
  predicate Met(reqs: seq<Request>, free: seq<int>, env: seq<int>, i: int)
    requires 0 <= i < |reqs| && i < |free|
  {
    reqs[i].w == ZLR || (!AtOnce(reqs) && free[i] in env)
  }

  lemma MetSame(reqs: seq<Request>, es: seq<int>, free: seq<int>, env: seq<int>)
    requires |reqs| <= |free| && es == free[..|reqs|]
    ensures forall i :: 0 <= i < |reqs| ==> (Met(reqs, es, env, i) <==> Met(reqs, free, env, i))
  {
  }

  // The events es are on the chains that the requests name; all other blocks are where they were.
  ghost predicate PutOn(place0: seq<int>, place: seq<int>, es: seq<int>, reqs: seq<Request>) {
    && |es| <= |reqs| && Others(place0, place, es)
    && forall i :: 0 <= i < |es| ==> 0 <= es[i] < |place| && place[es[i]] == reqs[i].w
  }

  ghost predicate Others(place0: seq<int>, place: seq<int>, es: seq<int>) {
    |place| == |place0| && forall e :: 0 <= e < |place| && e !in es ==> place[e] == place0[e]
  }

  // The first j requests are in what exactly if the bits of their events are in which.
  ghost predicate Told(what: set<int>, masks: seq<int>, which: set<int>, j: nat)
    requires j <= |masks|
  {
    forall i :: i in what <==> 0 <= i < j && masks[i] in which
  }

  lemma ToldNone(masks: seq<int>, which: set<int>)
    ensures Told({}, masks, which, 0)
  {
  }

  lemma ToldNext(what: set<int>, masks: seq<int>, which: set<int>, j: nat)
    requires j < |masks| && Told(what, masks, which, j)
    ensures Told(if masks[j] in which then what + {j} else what, masks, which, j + 1)
  {
  }

  lemma ToldAll(what: set<int>, masks: seq<int>, which: set<int>)
    requires Told(what, masks, which, |masks|)
    ensures forall i :: i in what <==> 0 <= i < |masks| && masks[i] in which
  {
  }

  lemma TakenNext(free: seq<int>, i: nat)
    requires i < |free|
    ensures free[i..][0] == free[i] && free[i..][1..] == free[i + 1..] && free[..i] + [free[i]] == free[..i + 1]
  {
  }

  lemma PutOnNone(place: seq<int>, reqs: seq<Request>)
    ensures PutOn(place, place, [], reqs)
  {
  }

  lemma PutOnNext(place0: seq<int>, place: seq<int>, es: seq<int>, reqs: seq<Request>, e: int)
    requires PutOn(place0, place, es, reqs) && |es| < |reqs| && 0 <= e < |place| && e !in es
    ensures PutOn(place0, place[e := reqs[|es|].w], es + [e], reqs)
  {
    var place', es' := place[e := reqs[|es|].w], es + [e];
    forall f | 0 <= f < |place'| && f !in es'
      ensures place'[f] == place0[f]
    {
      assert f !in es && f != e;
    }
  }

  lemma OthersNext(place0: seq<int>, place: seq<int>, es: seq<int>, j: nat)
    requires Others(place0, place, es) && j < |es| && 0 <= es[j] < |place|
    ensures Others(place0, place[es[j] := FREE], es)
  {
  }

  // The events es were started for process p with the bits masks; all other blocks are as before.
  ghost predicate Started(owner0: seq<int>, mask0: seq<int>, bits0: set<int>, owner: seq<int>, mask: seq<int>,
                          es: seq<int>,
                          masks: seq<int>, wmask: set<int>, p: int)
  {
    && |owner| == |owner0| == |mask| == |mask0| && |es| == |masks| && p != FREE
    && (forall i :: 0 <= i < |es| ==> 0 <= es[i] < |owner| && owner0[es[i]] == FREE && owner[es[i]] == p)
    && (forall i :: 0 <= i < |es| ==> mask[es[i]] == masks[i] && masks[i] in wmask)
    && (forall i, j :: 0 <= i < j < |es| ==> masks[i] != masks[j])
    && (forall e :: 0 <= e < |owner| && e !in es ==> owner[e] == owner0[e] && mask[e] == mask0[e])
    && (forall b :: b in wmask ==> b in masks && b !in bits0)
    && (forall e :: 0 <= e < |owner| && owner0[e] == p ==> mask0[e] in bits0)
  }

  lemma StartedNext(owner0: seq<int>, mask0: seq<int>, bits0: set<int>, owner: seq<int>, mask: seq<int>, es: seq<int>,
                    masks: seq<int>, wmask: set<int>, p: int, e: int, b: int)
    requires Started(owner0, mask0, bits0, owner, mask, es, masks, wmask, p)
    requires 0 <= e < |owner| && owner[e] == FREE && b !in bits0 && b !in wmask
    ensures |mask| == |owner| && e !in es && bits0 + wmask + {b} == bits0 + (wmask + {b})
    ensures Started(owner0, mask0, bits0, owner[e := p], mask[e := b], es + [e], masks + [b], wmask + {b}, p)
  {
    assert e !in es;
    var es', masks' := es + [e], masks + [b];
    assert forall f :: f in es' <==> f in es || f == e;
    assert masks'[|masks|] == b;
    assert forall c :: c in masks ==> c in masks';
  }

  // No other block of the process has the bit of a started event.
  lemma StartedUnique(owner0: seq<int>, mask0: seq<int>, bits0: set<int>, owner: seq<int>, mask: seq<int>, es: seq<int>,
                      masks: seq<int>, wmask: set<int>, p: int, i: nat, f: int)
    requires Started(owner0, mask0, bits0, owner, mask, es, masks, wmask, p) && i < |es|
    requires 0 <= f < |owner| && owner[f] == p && mask[f] == masks[i]
    ensures f == es[i]
  {
    assert masks[i] in wmask && masks[i] !in bits0;
    var j :| 0 <= j < |es| && es[j] == f;
    assert mask[es[j]] == masks[j];
  }

  // The first j of the events es were given back; of the others, those with a bit in which are still there.
  ghost predicate Ended(owner0: seq<int>, mask0: seq<int>, owner: seq<int>, mask: seq<int>, es: seq<int>,
                        masks: seq<int>,
                        which: set<int>, p: int, j: nat)
  {
    && |owner| == |owner0| == |mask| == |mask0| && |es| == |masks| && p != FREE
    && (forall i :: 0 <= i < |es| ==> 0 <= es[i] < |owner| && owner0[es[i]] == FREE && mask[es[i]] == masks[i])
    && (forall i, k :: 0 <= i < k < |es| ==> masks[i] != masks[k])
    && (forall i :: 0 <= i < |es| ==> owner[es[i]] == if i >= j && masks[i] in which then p else FREE)
    && (forall e :: 0 <= e < |owner| && e !in es ==> owner[e] == owner0[e] && mask[e] == mask0[e])
  }

  lemma EndedNext(owner0: seq<int>, mask0: seq<int>, owner: seq<int>, owner': seq<int>, mask: seq<int>, es: seq<int>,
                  masks: seq<int>, which: set<int>, p: int, j: nat)
    requires Ended(owner0, mask0, owner, mask, es, masks, which, p, j) && j < |es| && 0 <= es[j] < |owner|
    requires if masks[j] in which then owner' == owner[es[j] := FREE] else owner' == owner
    ensures Ended(owner0, mask0, owner', mask, es, masks, which, p, j + 1)
  {
    forall i | 0 <= i < |es| && i != j
      ensures es[i] != es[j]
    {
      assert masks[i] != masks[j];
    }
  }

  lemma AllEnded(owner0: seq<int>, mask0: seq<int>, owner: seq<int>, mask: seq<int>, es: seq<int>, masks: seq<int>,
                 which: set<int>, p: int)
    requires Ended(owner0, mask0, owner, mask, es, masks, which, p, |masks|)
    ensures owner == owner0
    ensures forall i :: 0 <= i < |es| ==> 0 <= es[i] < |owner0| && owner0[es[i]] == FREE
    ensures forall e :: 0 <= e < |owner| == |mask| == |mask0| && owner[e] != FREE ==> mask[e] == mask0[e]
  {
    forall e | 0 <= e < |owner|
      ensures owner[e] == owner0[e]
    {
      if e in es {
        var i :| 0 <= i < |es| && es[i] == e;
      }
    }
  }

  /** The bits of a process are those of its blocks. */
  lemma SameBits(owner: seq<int>, place0: seq<int>, mask0: seq<int>, bits0: seq<set<int>>, flg0: seq<set<int>>,
                 place: seq<int>, mask: seq<int>, bits: seq<set<int>>, flg: seq<set<int>>)
    requires Masks(owner, place0, mask0, bits0, flg0) && Masks(owner, place, mask, bits, flg) && |bits| == |bits0|
    requires |mask| == |mask0| == |owner|
    requires forall e :: 0 <= e < |owner| && owner[e] != FREE ==> mask[e] == mask0[e]
    ensures bits == bits0
  {
    forall p | 0 <= p < |bits|
      ensures bits[p] == bits0[p]
    {
      assert BitsOf(owner, place0, mask0, bits0[p], flg0[p], p);
      assert BitsOf(owner, place, mask, bits[p], flg[p], p);
      forall b
        ensures b in bits[p] <==> b in bits0[p]
      {
        if b in bits[p] {
          var e :| 0 <= e < |owner| && owner[e] == p && mask[e] == b;
          assert mask0[e] in bits0[p];
        }
        if b in bits0[p] {
          var e :| 0 <= e < |owner| && owner[e] == p && mask0[e] == b;
          assert mask[e] in bits[p];
        }
      }
    }
  }

  lemma {:induction false} Below(n: nat) returns (s: set<int>)
    ensures |s| == n && forall b :: b in s <==> 0 <= b < n
  {
    s := {};
    if n > 0 {
      s := Below(n - 1);
      s := s + {n - 1};
    }
  }

  lemma FreeBitExists(bits: set<int>)
    requires |bits| < MAX_EVENTS
    ensures exists c :: 0 <= c < MAX_EVENTS && c !in bits
  {
    var all := Below(MAX_EVENTS);
    if forall c :: 0 <= c < MAX_EVENTS ==> c in bits {
      assert all <= bits;
      Fewer(all, bits);
    }
  }

  lemma {:induction false} Fewer(a: set<int>, b: set<int>)
    requires a <= b
    ensures |a| <= |b|
    decreases |a|
  {
    if exists x :: x in a {
      var x :| x in a;
      Fewer(a - {x}, b - {x});
    } else {
      assert a == {};
    }
  }

  // The events in env complete, as far as they are waiting.
  function Passed(place: seq<int>, env: seq<int>): (r: seq<int>)
    ensures |r| == |place|
  {
    seq(|place|, e requires 0 <= e < |place| =>
      if e in env && place[e] != FREE && place[e] != ZLR then ZLR else place[e])
  }

  // Block e has come into chain w, behind block q, or in front when q is ROOT; the other blocks keep their order.
  ghost predicate PutBehind(ch: seq<seq<int>>, ch': seq<seq<int>>, w: int, q: int, e: int) {
    && 0 <= w < |ch|
    && exists k: nat :: k <= |ch[w]| && q == Pred(ch[w], k) && ch' == ch[w := ch[w][..k] + [e] + ch[w][k..]]
  }

  lemma PutBehindAt(ch: seq<seq<int>>, w: int, k: nat, e: int)
    requires 0 <= w < |ch| && k <= |ch[w]|
    ensures PutBehind(ch, ch[w := Inserted(ch[w], k, e)], w, Pred(ch[w], k), e)
  {
  }

  lemma PassedAt(place: seq<int>, env: seq<int>)
    ensures forall e :: 0 <= e < |place| ==>
      Passed(place, env)[e] == if e in env && place[e] !in {FREE, ZLR} then ZLR else place[e]
  {
  }

  lemma PassedNone(place: seq<int>)
    ensures forall env: seq<int> :: env == [] ==> Passed(place, env) == place
  {
    assert Passed(place, []) == place;
  }

  lemma PassedMore(place: seq<int>, env: seq<int>, i: nat)
    requires i < |env|
    ensures
      var s, e := Passed(place, env[..i]), env[i];
      Passed(place, env[..i + 1]) == if 0 <= e < |s| && s[e] != FREE && s[e] != ZLR then s[e := ZLR] else s
  {
    assert env[..i + 1] == env[..i] + [env[i]];
  }

  // Block e is not to be cancelled; if its bit is asked for, it was returned.
  ghost predicate Kept(place: seq<int>, mask: seq<int>, m: set<int>, m1: set<int>, e: int) {
    0 <= e < |place| == |mask| && (mask[e] in m ==> place[e] == ZLR && mask[e] in m1)
  }

  // Some of the events asked for that had not completed are gone; all else is as it was.
  ghost predicate Cancelled(owner0: seq<int>, place0: seq<int>, owner: seq<int>, place: seq<int>, mask: seq<int>,
                            p: int, m: set<int>) {
    && |owner| == |place| == |owner0| == |place0| == |mask|
    && forall e :: 0 <= e < |owner| ==>
         || (owner[e] == owner0[e] && place[e] == place0[e])
         || (owner0[e] == p && mask[e] in m && place0[e] != ZLR && owner[e] == FREE && place[e] == FREE)
  }

  lemma NothingCancelled(owner: seq<int>, place: seq<int>, mask: seq<int>, p: int, m: set<int>)
    requires |owner| == |place| == |mask|
    ensures Cancelled(owner, place, owner, place, mask, p, m)
  {
  }

  lemma CancelOne(owner0: seq<int>, place0: seq<int>, owner: seq<int>, place: seq<int>, mask: seq<int>, p: int,
                  m: set<int>, e: int)
    requires Cancelled(owner0, place0, owner, place, mask, p, m) && 0 <= e < |owner| && owner[e] == p && p != FREE
    requires mask[e] in m && place[e] != ZLR
    ensures Cancelled(owner0, place0, owner[e := FREE], place[e := FREE], mask, p, m)
  {
  }

  lemma Sizes2(owner: seq<int>, place: seq<int>, mask: seq<int>, evbits: seq<set<int>>, evflg: seq<set<int>>)
    requires Masks(owner, place, mask, evbits, evflg)
    ensures |owner| == |place| == |mask| && |evbits| == |evflg|
  {
  }

  lemma InArenaAt(c: seq<int>, n: nat, k: nat)
    requires InArena(c, n) && k < |c|
    ensures 0 <= c[k] < n
  {
  }
}
