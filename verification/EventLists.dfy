/** Doubly linked wait chains of event blocks: e_link leads on, e_pred back; the first block points back at the root. */
module EventLists {
  import opened Chains

  // The root pointer, seen as a block through its e_link.
  const ROOT: int := -2

  function Pred(c: seq<int>, i: nat): int
    requires i <= |c|
  {
    if i == 0 then ROOT else c[i - 1]
  }

  // link and pred agree that c is the list at head.
  ghost predicate Both(link: seq<int>, pred: seq<int>, head: int, c: seq<int>) {
    && Chain(link, head, c) && |pred| == |link|
    && forall i {:trigger pred[c[i]]} :: 0 <= i < |c| ==> pred[c[i]] == Pred(c, i)
  }

  lemma BothAt(link: seq<int>, pred: seq<int>, head: int, c: seq<int>, i: nat)
    requires Both(link, pred, head, c) && i < |c|
    ensures 0 <= c[i] < |link| && link[c[i]] == After(c, i, NIL) && pred[c[i]] == Pred(c, i)
    ensures After(c, i, NIL) == NIL || 0 <= After(c, i, NIL) < |link|
    ensures i > 0 ==> 0 <= c[i - 1] < |link|
    ensures head == c[0] && 0 <= head < |link|
  {
  }

  // What inserting e before position k writes.
  function LinkIn(link: seq<int>, c: seq<int>, k: nat, e: int): seq<int>
    requires k <= |c| && 0 <= e < |link| && (k > 0 ==> 0 <= c[k - 1] < |link|)
  {
    var own := link[e := if k < |c| then c[k] else NIL];
    if k == 0 then own else own[c[k - 1] := e]
  }

  function PredIn(pred: seq<int>, c: seq<int>, k: nat, e: int): seq<int>
    requires k <= |c| && 0 <= e < |pred| && (k < |c| ==> 0 <= c[k] < |pred|)
  {
    var own := pred[e := Pred(c, k)];
    if k < |c| then own[c[k] := e] else own
  }

  lemma BothInsert(link: seq<int>, pred: seq<int>, head: int, c: seq<int>, k: nat, e: int)
    requires Both(link, pred, head, c) && k <= |c| && 0 <= e < |link| && Apart(c, [e])
    ensures InArena(c, |link|)
    ensures Both(LinkIn(link, c, k, e), PredIn(pred, c, k, e), if k == 0 then e else head, Inserted(c, k, e))
  {
    InsertLink(link, c, k, e, NIL);
    var d, p := Inserted(c, k, e), PredIn(pred, c, k, e);
    assert forall i :: 0 <= i < |c| ==> c[i] != [e][0];
    forall i | 0 <= i < |d|
      ensures p[d[i]] == Pred(d, i)
    {
      InsertedAt(c, k, e, i);
      if i > 0 {
        InsertedAt(c, k, e, i - 1);
      }
      if i > k {
        assert pred[c[i - 1]] == Pred(c, i - 1);
      }
    }
  }

  function LinkOut(link: seq<int>, c: seq<int>, k: nat): seq<int>
    requires k < |c| && InArena(c, |link|)
  {
    if k == 0 then link else link[c[k - 1] := After(c, k, NIL)]
  }

  function PredOut(pred: seq<int>, c: seq<int>, k: nat): seq<int>
    requires k < |c| && InArena(c, |pred|)
  {
    if k + 1 < |c| then pred[c[k + 1] := Pred(c, k)] else pred
  }

  lemma BothUnlink(link: seq<int>, pred: seq<int>, head: int, c: seq<int>, k: nat)
    requires Both(link, pred, head, c) && k < |c|
    ensures Both(LinkOut(link, c, k), PredOut(pred, c, k), if k == 0 then After(c, 0, NIL) else head, Without(c, k))
  {
    assert link[c[k]] == After(c, k, NIL);
    if k == 0 {
      UnlinkFirst(link, c, NIL);
    } else {
      UnlinkInner(link, c, k, NIL);
    }
    var d, p := Without(c, k), PredOut(pred, c, k);
    forall i | 0 <= i < |d|
      ensures p[d[i]] == Pred(d, i)
    {
      WithoutAt(c, k, i);
      if i > 0 {
        WithoutAt(c, k, i - 1);
      }
      var j := if i < k then i else i + 1;
      assert pred[c[j]] == Pred(c, j);
    }
    if k > 0 {
      WithoutAt(c, k, 0);
    }
  }

  /** Writing links of blocks that are not in the list leaves it as it is. */
  lemma BothElsewhere(link: seq<int>, link': seq<int>, pred: seq<int>, pred': seq<int>, head: int, c: seq<int>)
    requires Both(link, pred, head, c) && |link'| == |link| && |pred'| == |pred|
    requires forall i :: 0 <= i < |c| ==> link'[c[i]] == link[c[i]] && pred'[c[i]] == pred[c[i]]
    ensures Both(link', pred', head, c)
  {
    LinkedElsewhere(link, link', c, NIL);
  }
}
