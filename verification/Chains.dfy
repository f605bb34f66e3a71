/**
 Singly linked lists kept in an arena: a node is an index, `next` holds the links, NIL ends a list.
 A ghost sequence of indices stands for the whole list.
 */
module Chains {

  const NIL: int := -1

  // Owner of a node that is on no list, or on the free list.
  const FREE: int := -1

  function Head(c: seq<int>, end: int): int {
    if c == [] then end else c[0]
  }

  // The node that follows position i.
  function After(c: seq<int>, i: nat, end: int): int {
    if i + 1 < |c| then c[i + 1] else end
  }

  ghost predicate Distinct(c: seq<int>) {
    forall i, j :: 0 <= i < j < |c| ==> c[i] != c[j]
  }

  ghost predicate InArena(c: seq<int>, n: nat) {
    forall i :: 0 <= i < |c| ==> 0 <= c[i] < n
  }

  ghost predicate Apart(c: seq<int>, d: seq<int>) {
    forall i, j :: 0 <= i < |c| && 0 <= j < |d| ==> c[i] != d[j]
  }

  // c is the run of nodes from its head up to, not including, `end`.
  ghost predicate Linked(next: seq<int>, c: seq<int>, end: int) {
    && InArena(c, |next|)
    && Distinct(c)
    && forall i {:trigger next[c[i]]} :: 0 <= i < |c| ==> next[c[i]] == After(c, i, end)
  }

  ghost predicate Chain(next: seq<int>, head: int, c: seq<int>) {
    Linked(next, c, NIL) && head == Head(c, NIL)
  }

  /** The links determine the list: a head has at most one chain. */
  lemma {:induction false} ChainUnique(next: seq<int>, head: int, c: seq<int>, d: seq<int>)
    requires Chain(next, head, c) && Chain(next, head, d)
    ensures c == d
    decreases |c|
  {
    if c != [] && d != [] {
      ChainTail(next, c);
      ChainTail(next, d);
      ChainUnique(next, next[head], c[1..], d[1..]);
      assert c == [c[0]] + c[1..];
      assert d == [d[0]] + d[1..];
    }
  }

  lemma ChainTail(next: seq<int>, c: seq<int>)
    requires Linked(next, c, NIL) && c != []
    ensures Chain(next, next[c[0]], c[1..])
  {
    assert forall i :: 0 <= i < |c[1..]| ==> c[1..][i] == c[i + 1];
  }

  // A list without its k-th node.
  function Without<T>(c: seq<T>, k: nat): seq<T>
    requires k < |c|
  {
    c[..k] + c[k + 1..]
  }

  lemma WithoutMember(c: seq<int>, k: nat, e: int)
    requires k < |c| && Distinct(c)
    ensures e in Without(c, k) <==> e in c && e != c[k]
  {
    if e in c && e != c[k] {
      var i :| 0 <= i < |c| && c[i] == e;
      assert Without(c, k)[if i < k then i else i - 1] == e;
    }
  }

  lemma WithoutAt(c: seq<int>, k: nat, i: nat)
    requires k < |c| && i + 1 < |c|
    ensures Without(c, k)[i] == c[if i < k then i else i + 1]
  {
  }

  lemma WithoutDistinct(c: seq<int>, k: nat)
    requires Distinct(c) && k < |c|
    ensures Distinct(Without(c, k))
  {
    forall i, j | 0 <= i < j < |Without(c, k)|
      ensures Without(c, k)[i] != Without(c, k)[j]
    {
      WithoutAt(c, k, i);
      WithoutAt(c, k, j);
    }
  }

  /** Redirecting the predecessor's link takes one node out and keeps the rest in order. */
  lemma UnlinkInner(next: seq<int>, c: seq<int>, k: nat, end: int)
    requires Linked(next, c, end) && 0 < k < |c|
    ensures Linked(next[c[k - 1] := next[c[k]]], Without(c, k), end)
  {
    var d := Without(c, k);
    WithoutDistinct(c, k);
    forall i | 0 <= i < |d|
      ensures 0 <= d[i] < |next| && next[c[k - 1] := next[c[k]]][d[i]] == After(d, i, end)
    {
      WithoutAt(c, k, i);
      if i + 1 < |d| {
        WithoutAt(c, k, i + 1);
      }
    }
  }

  lemma UnlinkFirst(next: seq<int>, c: seq<int>, end: int)
    requires Linked(next, c, end) && c != []
    ensures Linked(next, Without(c, 0), end)
    ensures next[c[0]] == Head(Without(c, 0), end)
  {
    assert forall i :: 0 <= i < |Without(c, 0)| ==> Without(c, 0)[i] == c[i + 1];
  }

  /** Appending a node whose link is NIL: the old last node is redirected to it. */
  lemma LinkLast(next: seq<int>, c: seq<int>, e: int)
    requires Linked(next, c, NIL) && c != []
    requires 0 <= e < |next| && Apart(c, [e]) && next[e] == NIL
    ensures Linked(next[c[|c| - 1] := e], c + [e], NIL)
  {
  }

  function Spliced(c: seq<int>, k: nat, s: seq<int>): seq<int>
    requires k < |c|
  {
    c[..k + 1] + s + c[k + 1..]
  }

  lemma SplicedAt(c: seq<int>, k: nat, s: seq<int>, i: nat)
    requires k < |c| && i < |c| + |s|
    ensures |Spliced(c, k, s)| == |c| + |s|
    ensures Spliced(c, k, s)[i] == if i <= k then c[i] else if i <= k + |s| then s[i - k - 1] else c[i - |s|]
  {
    var front := c[..k + 1] + s;
    if k + |s| < i {
      assert (front + c[k + 1..])[i] == c[k + 1..][i - |front|];
    }
  }

  lemma SplicedMembers(c: seq<int>, k: nat, s: seq<int>)
    requires k < |c|
    ensures forall e :: e in Spliced(c, k, s) <==> e in c || e in s
  {
    assert c == c[..k + 1] + c[k + 1..];
  }

  lemma SplicedDistinct(c: seq<int>, k: nat, s: seq<int>)
    requires Distinct(c) && Distinct(s) && k < |c|
    requires Apart(c, s)
    ensures Distinct(Spliced(c, k, s))
  {
    var d := Spliced(c, k, s);
    forall i, j | 0 <= i < j < |d|
      ensures d[i] != d[j]
    {
      SplicedAt(c, k, s, i);
      SplicedAt(c, k, s, j);
    }
  }

  /** Splicing the list s in after position k of c takes two link writes. */
  lemma SpliceAfter(next: seq<int>, c: seq<int>, k: nat, s: seq<int>, end: int)
    requires Linked(next, c, end) && Linked(next, s, NIL) && k < |c| && s != []
    requires Apart(c, s)
    ensures Linked(next[s[|s| - 1] := next[c[k]]][c[k] := s[0]], Spliced(c, k, s), end)
  {
    var d := Spliced(c, k, s);
    var next' := next[s[|s| - 1] := next[c[k]]][c[k] := s[0]];
    SplicedDistinct(c, k, s);
    forall i | 0 <= i < |d|
      ensures 0 <= d[i] < |next| && next'[d[i]] == After(d, i, end)
    {
      SplicedAt(c, k, s, i);
      if i + 1 < |d| {
        SplicedAt(c, k, s, i + 1);
      }
    }
  }

  function Inserted<T>(c: seq<T>, k: nat, e: T): seq<T>
    requires k <= |c|
  {
    c[..k] + [e] + c[k..]
  }

  lemma InsertedAt(c: seq<int>, k: nat, e: int, i: nat)
    requires k <= |c| && i <= |c|
    ensures |Inserted(c, k, e)| == |c| + 1
    ensures Inserted(c, k, e)[i] == if i < k then c[i] else if i == k then e else c[i - 1]
  {
  }

  /** Inserting e before position k: its own link, and the link of its predecessor unless it becomes the head. */
  lemma InsertLink(next: seq<int>, c: seq<int>, k: nat, e: int, end: int)
    requires Linked(next, c, end) && k <= |c|
    requires 0 <= e < |next| && Apart(c, [e])
    ensures var own := next[e := if k < |c| then c[k] else end];
      Linked(if k == 0 then own else own[c[k - 1] := e], Inserted(c, k, e), end)
  {
    var d := Inserted(c, k, e);
    var own := next[e := if k < |c| then c[k] else end];
    var next' := if k == 0 then own else own[c[k - 1] := e];
    assert forall i :: 0 <= i < |c| ==> c[i] != [e][0];
    forall i | 0 <= i < |d|
      ensures 0 <= d[i] < |next| && next'[d[i]] == After(d, i, end)
    {
      InsertedAt(c, k, e, i);
      if i + 1 < |d| {
        InsertedAt(c, k, e, i + 1);
      }
    }
    forall i, j | 0 <= i < j < |d|
      ensures d[i] != d[j]
    {
      InsertedAt(c, k, e, i);
      InsertedAt(c, k, e, j);
    }
  }

  lemma PrependLink(next: seq<int>, c: seq<int>, e: int)
    requires Linked(next, c, NIL) && 0 <= e < |next| && Apart(c, [e])
    requires next[e] == Head(c, NIL)
    ensures Linked(next, [e] + c, NIL)
  {
    InsertLink(next, c, 0, e, NIL);
    assert Inserted(c, 0, e) == [e] + c;
    assert next[e := next[e]] == next;
  }

  /** Hooking a second list onto the end of a first. */
  lemma AppendLink(next: seq<int>, c: seq<int>, d: seq<int>)
    requires Linked(next, c, NIL) && Linked(next, d, NIL) && c != [] && Apart(c, d)
    ensures Linked(next[c[|c| - 1] := Head(d, NIL)], c + d, NIL)
  {
    var next' := next[c[|c| - 1] := Head(d, NIL)];
    forall i | 0 <= i < |c + d|
      ensures next'[(c + d)[i]] == After(c + d, i, NIL)
    {
      if i >= |c| {
        assert next[d[i - |c|]] == After(d, i - |c|, NIL);
      } else {
        assert next[c[i]] == After(c, i, NIL);
      }
    }
  }

  /** Writing links of other nodes leaves a list as it is. */
  lemma LinkedElsewhere(next: seq<int>, next': seq<int>, c: seq<int>, end: int)
    requires Linked(next, c, end) && |next'| == |next|
    requires forall i :: 0 <= i < |c| ==> next'[c[i]] == next[c[i]]
    ensures Linked(next', c, end)
  {
  }

  // c is a list starting at head and holds exactly the nodes owned by w.
  ghost predicate Holds(link: seq<int>, head: int, c: seq<int>, owner: seq<int>, w: int) {
    && Chain(link, head, c) && |owner| == |link|
    && (forall i :: 0 <= i < |c| ==> owner[c[i]] == w)
    && forall n :: 0 <= n < |owner| && owner[n] == w ==> n in c
  }

  /** A list whose nodes' links and owners did not change is still the same list. */
  lemma HoldsKept(link: seq<int>, link': seq<int>, head: int, c: seq<int>, owner: seq<int>, owner': seq<int>, w: int)
    requires Holds(link, head, c, owner, w)
    requires |link'| >= |link| && |owner'| == |link'|
    requires forall n :: 0 <= n < |owner| && owner[n] == w ==> link'[n] == link[n]
    requires forall n :: 0 <= n < |owner'| ==> (owner'[n] == w <==> n < |owner| && owner[n] == w)
    ensures Holds(link', head, c, owner', w)
  {
    forall i | 0 <= i < |c|
      ensures 0 <= c[i] < |link'| && link'[c[i]] == After(c, i, NIL)
    {
      assert link[c[i]] == After(c, i, NIL);
      assert owner[c[i]] == w;
    }
  }

  /** Pushing a new first node. */
  lemma HoldsPush(link: seq<int>, head: int, c: seq<int>, owner: seq<int>, w: int, e: int)
    requires Holds(link, head, c, owner, w) && 0 <= e < |link| && owner[e] != w
    ensures Holds(link[e := head], e, [e] + c, owner[e := w], w)
  {
    assert forall i :: 0 <= i < |c| ==> owner[c[i]] == w;
    assert Apart(c, [e]);
    LinkedElsewhere(link, link[e := head], c, NIL);
    PrependLink(link[e := head], c, e);
  }

  /** Taking out the node at position k; v is what it is owned by afterwards. */
  lemma HoldsUnlink(link: seq<int>, head: int, c: seq<int>, owner: seq<int>, w: int, k: nat, v: int)
    requires Holds(link, head, c, owner, w) && k < |c| && v != w
    ensures Holds(
      if k == 0 then link else link[c[k - 1] := link[c[k]]],
      if k == 0 then link[c[k]] else head,
      Without(c, k), owner[c[k] := v], w)
  {
    var d := Without(c, k);
    assert link[c[k]] == After(c, k, NIL);
    if k == 0 {
      UnlinkFirst(link, c, NIL);
    } else {
      UnlinkInner(link, c, k, NIL);
    }
    forall i | 0 <= i < |d|
      ensures owner[c[k] := v][d[i]] == w
    {
      WithoutAt(c, k, i);
    }
    forall n | 0 <= n < |owner| && owner[c[k] := v][n] == w
      ensures n in d
    {
      WithoutMember(c, k, n);
    }
  }

  /** Moving the node at position k to the unowned place e, with its link. */
  lemma HoldsMove(link: seq<int>, head: int, c: seq<int>, owner: seq<int>, w: int, k: nat, e: int, v: int)
    requires Holds(link, head, c, owner, w) && k < |c| && 0 <= e < |link| && owner[e] != w && v != w
    ensures Holds(
      if k == 0 then link[e := link[c[k]]] else link[e := link[c[k]]][c[k - 1] := e],
      if k == 0 then e else head,
      c[k := e], owner[e := w][c[k] := v], w)
  {
    var d, link1 := c[k := e], link[e := link[c[k]]];
    var link', owner' := if k == 0 then link1 else link1[c[k - 1] := e], owner[e := w][c[k] := v];
    assert forall i :: 0 <= i < |c| ==> owner[c[i]] == w;
    assert Distinct(d);
    forall i | 0 <= i < |d|
      ensures 0 <= d[i] < |link'| && owner'[d[i]] == w && link'[d[i]] == After(d, i, NIL)
    {
      assert link[c[i]] == After(c, i, NIL);
    }
    assert Linked(link', d, NIL);
    forall n | 0 <= n < |owner'| && owner'[n] == w
      ensures n in d
    {
      if n == e {
        assert d[k] == e;
      } else {
        var i :| 0 <= i < |c| && c[i] == n;
        assert d[i] == n;
      }
    }
    assert Holds(link', if k == 0 then e else head, d, owner', w);
  }
}
