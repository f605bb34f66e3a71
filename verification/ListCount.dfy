/** How many nodes a free list and some other lists hold together. */
module ListCount {
  import opened Chains

  function Nodes(free: seq<int>, lists: seq<seq<int>>): nat {
    if lists == [] then |free| else Nodes(free, lists[..|lists| - 1]) + |lists[|lists| - 1]|
  }

  lemma {:induction false} NodesSplit(free: seq<int>, lists: seq<seq<int>>)
    ensures Nodes(free, lists) == |free| + Nodes([], lists)
    decreases |lists|
  {
    if lists != [] {
      NodesSplit(free, lists[..|lists| - 1]);
    }
  }

  /** When no list has more than m nodes, what list p lacks to m is not held by any. */
  lemma {:induction false} NodesAtMost(lists: seq<seq<int>>, m: nat, p: nat)
    requires p < |lists| && forall w :: 0 <= w < |lists| ==> |lists[w]| <= m
    ensures Nodes([], lists) + m - |lists[p]| <= m * |lists|
    decreases |lists|
  {
    var rest := lists[..|lists| - 1];
    assert m * |lists| == m * |rest| + m;
    if rest == [] {
      assert Nodes([], rest) == 0;
    } else {
      NodesAtMost(rest, m, if p < |rest| then p else 0);
    }
  }

  /** When every node is on the free list or on one of the others, these hold as many nodes as there are. */
  lemma AllNodes(link: seq<int>, head: int, heads: seq<int>, free: seq<int>, lists: seq<seq<int>>, owner: seq<int>)
    requires |heads| == |lists| && Holds(link, head, free, owner, FREE)
    requires forall w {:trigger lists[w]} :: 0 <= w < |lists| ==> Holds(link, heads[w], lists[w], owner, w)
    requires forall n :: 0 <= n < |owner| ==> FREE <= owner[n] < |lists|
    ensures Nodes(free, lists) == |link|
  {
    NodesBelow(link, head, heads, free, lists, owner, |lists|);
    assert lists[..|lists|] == lists;
    AllBelow(owner, |lists|);
  }

  // The nodes of the free list and of the first k others.
  lemma {:induction false} NodesBelow(link: seq<int>, head: int, heads: seq<int>, free: seq<int>,
                                      lists: seq<seq<int>>, owner: seq<int>, k: nat)
    requires |heads| == |lists| && k <= |lists| && Holds(link, head, free, owner, FREE)
    requires forall w {:trigger lists[w]} :: 0 <= w < |lists| ==> Holds(link, heads[w], lists[w], owner, w)
    requires forall n :: 0 <= n < |owner| ==> FREE <= owner[n] < |lists|
    ensures Nodes(free, lists[..k]) == |set n | 0 <= n < |owner| && owner[n] < k|
  {
    if k == 0 {
      MembersCount(free);
      assert (set n | n in free) == set n | 0 <= n < |owner| && owner[n] < 0;
    } else {
      NodesBelow(link, head, heads, free, lists, owner, k - 1);
      assert Holds(link, heads[k - 1], lists[k - 1], owner, k - 1);
      OneMore(owner, lists[k - 1], k - 1);
      assert lists[..k][..k - 1] == lists[..k - 1];
    }
  }

  lemma OneMore(owner: seq<int>, c: seq<int>, w: int)
    requires Distinct(c) && forall n :: n in c <==> 0 <= n < |owner| && owner[n] == w
    ensures |set n | 0 <= n < |owner| && owner[n] < w + 1| == |set n | 0 <= n < |owner| && owner[n] < w| + |c|
  {
    MembersCount(c);
    var below, here := set n | 0 <= n < |owner| && owner[n] < w, set n | n in c;
    assert (set n | 0 <= n < |owner| && owner[n] < w + 1) == below + here;
    assert below !! here;
  }

  lemma AllBelow(owner: seq<int>, k: int)
    requires forall n :: 0 <= n < |owner| ==> owner[n] < k
    ensures |set n | 0 <= n < |owner| && owner[n] < k| == |owner|
  {
    var all := seq(|owner|, i => i);
    MembersCount(all);
    forall n: int
      ensures n in all <==> 0 <= n < |owner| && owner[n] < k
    {
      assert 0 <= n < |owner| ==> all[n] == n;
    }
    assert (set n | n in all) == set n | 0 <= n < |owner| && owner[n] < k;
  }

  lemma {:induction false} MembersCount(c: seq<int>)
    requires Distinct(c)
    ensures |set n | n in c| == |c|
    decreases |c|
  {
    if c != [] {
      var rest := c[..|c| - 1];
      MembersCount(rest);
      assert (set n | n in c) == (set n | n in rest) + {c[|c| - 1]};
    }
  }
}
