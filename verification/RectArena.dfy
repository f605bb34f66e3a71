/**
 The arena behind the rectangle lists of aes/newwrect.c, as values: memory blocks and their counts, lists of
 nodes and what a step does to them, and what cutting and merging do to the rectangles in a list.
 RLIST nodes are indices; node i lives in memory block i / NUMRECT.
 */
module RectArena {
  import opened Geometry
  import opened Chains
  import opened SlotCount

  const NUMRECT := 80

  function Home(i: nat): nat { i / NUMRECT }

  // ---- what the block list knows about the slots ----

  // numused is right for every listed block, and every used slot lives in a listed block.
  ghost predicate Counted(rused: seq<bool>, numused: seq<int>, blocks: seq<int>) {
    && |rused| == |numused| * NUMRECT
    && InArena(blocks, |numused|)
    && Distinct(blocks)
    && (forall b :: b in blocks ==> numused[b] == Count(rused, b * NUMRECT, b * NUMRECT + NUMRECT))
    && forall i :: 0 <= i < |rused| && rused[i] ==> Home(i) in blocks
  }

  // Only a lone block may be empty.
  ghost predicate Tidy(numused: seq<int>, blocks: seq<int>) {
    |blocks| > 1 ==> forall b :: b in blocks ==> 0 <= b < |numused| && numused[b] > 0
  }

  function NonEmpty(numused: seq<int>, blocks: seq<int>): (r: seq<int>)
    requires InArena(blocks, |numused|) && Distinct(blocks)
    ensures InArena(r, |numused|) && Distinct(r)
    ensures forall b :: b in r <==> b in blocks && numused[b] != 0
  {
    if blocks == [] then []
    else
      var rest := NonEmpty(numused, blocks[..|blocks| - 1]);
      var b := blocks[|blocks| - 1];
      if numused[b] != 0 then rest + [b] else rest
  }

  lemma CountedSet(rused: seq<bool>, numused: seq<int>, blocks: seq<int>, i: nat, v: bool)
    requires Counted(rused, numused, blocks)
    requires i < |rused| && rused[i] != v && Home(i) in blocks
    ensures Counted(rused[i := v], numused[Home(i) := numused[Home(i)] + if v then 1 else -1], blocks)
  {
    forall b | b in blocks
      ensures Count(rused[i := v], b * NUMRECT, b * NUMRECT + NUMRECT)
           == numused[b] + if b != Home(i) then 0 else if v then 1 else -1
    {
      if b == Home(i) {
        CountSet(rused, b * NUMRECT, b * NUMRECT + NUMRECT, i, v);
      } else {
        CountSame(rused, rused[i := v], b * NUMRECT, b * NUMRECT + NUMRECT);
      }
    }
  }

  lemma CountedGrow(rused: seq<bool>, numused: seq<int>, blocks: seq<int>)
    requires Counted(rused, numused, blocks)
    ensures Counted(rused + seq(NUMRECT, _ => false), numused + [0], blocks + [|numused|])
  {
    var n := |numused|;
    var rused' := rused + seq(NUMRECT, _ => false);
    forall b | b in blocks + [n]
      ensures (numused + [0])[b] == Count(rused', b * NUMRECT, b * NUMRECT + NUMRECT)
    {
      if b == n {
        CountExtremes(rused', n * NUMRECT, n * NUMRECT + NUMRECT);
      } else {
        CountSame(rused, rused', b * NUMRECT, b * NUMRECT + NUMRECT);
      }
    }
  }

  lemma CountedShrink(rused: seq<bool>, numused: seq<int>, blocks: seq<int>)
    requires Counted(rused, numused, blocks)
    ensures Counted(rused, numused, NonEmpty(numused, blocks))
    ensures NonEmpty(numused, blocks) == [] <==> forall i :: 0 <= i < |rused| ==> !rused[i]
  {
    forall i | 0 <= i < |rused| && rused[i]
      ensures Home(i) in NonEmpty(numused, blocks)
    {
      var b := Home(i);
      CountExtremes(rused, b * NUMRECT, b * NUMRECT + NUMRECT);
    }
    var left := NonEmpty(numused, blocks);
    if left != [] {
      var b := left[0];
      assert b in left;
      CountExtremes(rused, b * NUMRECT, b * NUMRECT + NUMRECT);
    }
  }

  // ---- the arena and the lists in it ----

  // A snapshot of the nodes: which are used, what they hold, how they are linked.
  datatype Arena = Arena(rused: seq<bool>, rect: seq<Rect>, rnext: seq<int>) {
    predicate IsUsed(i: int) {
      0 <= i < |rused| && rused[i]
    }
  }

  // From a to b exactly the nodes ns were taken; all nodes used in a are used in b, with the same contents.
  ghost predicate Grown(a: Arena, b: Arena, ns: seq<int>) {
    && |a.rused| == |a.rect| == |a.rnext| <= |b.rused| == |b.rect| == |b.rnext|
    && (forall i :: a.IsUsed(i) ==> b.IsUsed(i) && b.rect[i] == a.rect[i] && b.rnext[i] == a.rnext[i])
    && (forall i :: 0 <= i < |ns| ==> b.IsUsed(ns[i]) && !a.IsUsed(ns[i]))
    && forall i :: b.IsUsed(i) ==> a.IsUsed(i) || i in ns
  }

  ghost predicate SameMembers(c: seq<int>, d: seq<int>) {
    forall e :: e in c <==> e in d
  }

  lemma GrownTrans(a: Arena, b: Arena, c: Arena, ms: seq<int>, ns: seq<int>, all: seq<int>)
    requires Grown(a, b, ms) && Grown(b, c, ns) && SameMembers(all, ms + ns)
    ensures Grown(a, c, all)
  {
    forall i | 0 <= i < |all|
      ensures c.IsUsed(all[i]) && !a.IsUsed(all[i])
    {
      assert all[i] in ms + ns;
    }
  }

  // Nodes taken since a may be rewritten freely.
  lemma GrownWrite(a: Arena, b: Arena, ns: seq<int>, rect': seq<Rect>, rnext': seq<int>)
    requires Grown(a, b, ns)
    requires |rect'| == |b.rect| && forall i :: 0 <= i < |rect'| && i !in ns ==> rect'[i] == b.rect[i]
    requires |rnext'| == |b.rnext| && forall i :: 0 <= i < |rnext'| && i !in ns ==> rnext'[i] == b.rnext[i]
    ensures Grown(a, b.(rect := rect', rnext := rnext'), ns)
  {
  }

  lemma GrownDrop(a: Arena, b: Arena, ns: seq<int>, k: nat)
    requires Grown(a, b, ns) && Distinct(ns) && k < |ns|
    ensures Grown(a, b.(rused := b.rused[ns[k] := false]), Without(ns, k))
  {
    var d := Without(ns, k);
    var b' := b.(rused := b.rused[ns[k] := false]);
    forall i | 0 <= i < |d|
      ensures b'.IsUsed(d[i]) && !a.IsUsed(d[i])
    {
      assert d[i] == ns[if i < k then i else i + 1];
    }
    forall i | b'.IsUsed(i)
      ensures a.IsUsed(i) || i in d
    {
      WithoutMember(ns, k, i);
    }
  }

  // b without the nodes of c.
  function Dropped(b: Arena, c: seq<int>): Arena {
    b.(rused := seq(|b.rused|, i requires 0 <= i < |b.rused| => b.rused[i] && i !in c))
  }

  lemma GrownSplit(a: Arena, b: Arena, c: seq<int>)
    requires Grown(a, b, c)
    ensures Grown(a, Dropped(b, c), []) && Grown(Dropped(b, c), b, c)
  {
    assert forall i :: 0 <= i < |c| ==> c[i] in c;
  }

  function Rects(rect: seq<Rect>, c: seq<int>): seq<Rect>
    requires InArena(c, |rect|)
  {
    seq(|c|, i requires 0 <= i < |c| => rect[c[i]])
  }

  lemma RectsSet(rect: seq<Rect>, c: seq<int>, i: nat, r: Rect)
    requires InArena(c, |rect|) && Distinct(c) && i < |c|
    ensures Rects(rect[c[i] := r], c) == Rects(rect, c)[i := r]
  {
  }

  lemma RectsInserted(rect: seq<Rect>, c: seq<int>, k: nat, e: int, r: Rect)
    requires InArena(c, |rect|) && k <= |c| && 0 <= e < |rect| && Apart(c, [e])
    ensures InArena(Inserted(c, k, e), |rect|)
    ensures Rects(rect[e := r], Inserted(c, k, e)) == Inserted(Rects(rect, c), k, r)
  {
    forall i | 0 <= i <= |c|
      ensures 0 <= Inserted(c, k, e)[i] < |rect|
      ensures rect[e := r][Inserted(c, k, e)[i]] == Inserted(Rects(rect, c), k, r)[i]
    {
      InsertedAt(c, k, e, i);
      assert i < |c| ==> c[i] != [e][0];
      assert i > 0 ==> c[i - 1] != [e][0];
    }
  }

  lemma RectsWithout(rect: seq<Rect>, c: seq<int>, k: nat)
    requires InArena(c, |rect|) && k < |c|
    ensures InArena(Without(c, k), |rect|) && Rects(rect, Without(c, k)) == Without(Rects(rect, c), k)
  {
    assert forall i :: 0 <= i < |Without(c, k)| ==> Without(c, k)[i] == c[if i < k then i else i + 1];
  }

  // The first rectangle absorbs the second, which lies directly below it.
  predicate Mergeable(a: Rect, b: Rect) {
    a.x == b.x && a.w == b.w && a.y + a.h == b.y
  }

  // No rectangle before position n can absorb a later one.
  ghost predicate Settled(rs: seq<Rect>, n: nat) {
    forall i, j :: 0 <= i < n && i < j < |rs| ==> !Mergeable(rs[i], rs[j])
  }

  // ... and the rectangle at position n cannot absorb one before position j.
  ghost predicate SettledTo(rs: seq<Rect>, n: nat, j: nat) {
    Settled(rs, n) && forall k :: n < k < j && k < |rs| && n < |rs| ==> !Mergeable(rs[n], rs[k])
  }

  ghost predicate SameCover(rs: seq<Rect>, rs': seq<Rect>) {
    forall px, py :: Cover(rs, px, py) == Cover(rs', px, py)
  }

  function Replaced(c: seq<int>, k: nat, ns: seq<int>): seq<int>
    requires k < |c|
  {
    c[..k] + ns + c[k + 1..]
  }

  // mrgrect's result.
  function Grow(a: Rect, b: Rect): Rect {
    a.(h := a.h + b.h)
  }

  // After m rectangles of orig have been cut, the first `done` of rs are their remains and the rest is untouched.
  ghost predicate PassState(t: Rect, orig: seq<Rect>, m: nat, rs: seq<Rect>, done: nat) {
    && m <= |orig| && done <= |rs|
    && rs[..done] == CutList(t, orig[..m]) && rs[done..] == orig[m..]
  }

  lemma PassStart(t: Rect, orig: seq<Rect>)
    ensures PassState(t, orig, 0, orig, 0)
  {
  }

  lemma PassStep(t: Rect, orig: seq<Rect>, m: nat, rs: seq<Rect>, done: nat)
    requires PassState(t, orig, m, rs, done)
    ensures done == |rs| ==> rs == CutList(t, orig)
    ensures done < |rs| ==> m < |orig|
    ensures done < |rs| ==>
      PassState(t, orig, m + 1, rs[..done] + CutOne(t, rs[done]) + rs[done + 1..], done + |CutOne(t, rs[done])|)
  {
    if done < |rs| {
      var rs' := rs[..done] + CutOne(t, rs[done]) + rs[done + 1..];
      assert rs[done..][0] == orig[m..][0];
      assert orig[..m + 1][..m] == orig[..m];
      assert rs'[..done + |CutOne(t, rs[done])|] == rs[..done] + CutOne(t, rs[done]);
      assert rs'[done + |CutOne(t, rs[done])|..] == rs[done + 1..] == rs[done..][1..];
      assert orig[m + 1..] == orig[m..][1..];
    } else {
      assert rs[..done] == rs;
      assert |orig[m..]| == 0 && orig[..m] == orig;
    }
  }

  // rs' covers the same pixels as rs, as often, with no more rectangles; nothing empty appears.
  ghost predicate Tiles(rs: seq<Rect>, rs': seq<Rect>) {
    |rs'| <= |rs| && (AllSolid(rs) ==> AllSolid(rs') && SameCover(rs, rs'))
  }

  lemma TilesTrans(rs: seq<Rect>, rs': seq<Rect>, rs'': seq<Rect>)
    requires Tiles(rs, rs') && Tiles(rs', rs'')
    ensures Tiles(rs, rs'')
  {
  }

  // The list after position i has taken in position j.
  function Merged(rs: seq<Rect>, i: nat, j: nat): seq<Rect>
    requires i < j < |rs|
  {
    Without(rs[i := Grow(rs[i], rs[j])], j)
  }

  lemma {:induction false} CoverUpdate(rs: seq<Rect>, i: nat, r: Rect, px: int, py: int)
    requires i < |rs|
    ensures Cover(rs[i := r], px, py) + (if Contains(rs[i], px, py) then 1 else 0)
         == Cover(rs, px, py) + if Contains(r, px, py) then 1 else 0
  {
    if i < |rs| - 1 {
      CoverUpdate(rs[..|rs| - 1], i, r, px, py);
      assert rs[i := r][..|rs| - 1] == rs[..|rs| - 1][i := r];
    } else {
      assert rs[i := r][..|rs| - 1] == rs[..|rs| - 1];
    }
  }

  lemma {:induction false} CoverWithout(rs: seq<Rect>, j: nat, px: int, py: int)
    requires j < |rs|
    ensures Cover(Without(rs, j), px, py) + (if Contains(rs[j], px, py) then 1 else 0) == Cover(rs, px, py)
  {
    if j < |rs| - 1 {
      CoverWithout(rs[..|rs| - 1], j, px, py);
      assert Without(rs, j)[..|rs| - 2] == Without(rs[..|rs| - 1], j);
    } else {
      assert Without(rs, j) == rs[..|rs| - 1];
    }
  }

  /** Merging two stacked rectangles covers the same pixels. */
  lemma MergedTiles(rs: seq<Rect>, i: nat, j: nat)
    requires i < j < |rs| && Mergeable(rs[i], rs[j])
    ensures Tiles(rs, Merged(rs, i, j))
  {
    var rs' := Merged(rs, i, j);
    var grown := rs[i := Grow(rs[i], rs[j])];
    assert forall k :: 0 <= k < |rs'| ==> rs'[k] == grown[if k < j then k else k + 1];
    if AllSolid(rs) {
      forall px, py
        ensures Cover(rs', px, py) == Cover(rs, px, py)
      {
        CoverUpdate(rs, i, Grow(rs[i], rs[j]), px, py);
        CoverWithout(grown, j, px, py);
      }
    }
  }

  /** Trying a pair settles it, or merges it without unsettling an earlier rectangle. */
  lemma PairTried(orig: seq<Rect>, rs: seq<Rect>, i: nat, j: nat)
    requires i < j < |rs| && Tiles(orig, rs) && SettledTo(rs, i, j)
    ensures if Mergeable(rs[i], rs[j]) then Tiles(orig, Merged(rs, i, j)) && SettledTo(Merged(rs, i, j), i, i + 1)
            else SettledTo(rs, i, j + 1)
  {
    if Mergeable(rs[i], rs[j]) {
      MergedTiles(rs, i, j);
      TilesTrans(orig, rs, Merged(rs, i, j));
    }
  }

  lemma AllTried(rs: seq<Rect>, i: nat, j: nat)
    requires i < |rs| <= j && SettledTo(rs, i, j)
    ensures Settled(rs, i + 1)
  {
  }

  // The last node of a list, or NIL.
  function Last(c: seq<int>): int {
    if c == [] then NIL else c[|c| - 1]
  }

  // A list of used nodes is still there after others were taken, and its rectangles with it.
  lemma KeptChain(s: Arena, a: Arena, b: Arena, head: int, c: seq<int>, ns: seq<int>)
    requires Chain(a.rnext, head, c) && Grown(s, a, c) && Grown(a, b, ns)
    ensures Chain(b.rnext, head, c) && InArena(c, |b.rect|) && InArena(c, |a.rect|)
    ensures Rects(b.rect, c) == Rects(a.rect, c) && Apart(c, ns)
  {
    assert forall i :: 0 <= i < |c| ==> a.IsUsed(c[i]);
    assert forall i :: 0 <= i < |ns| ==> !a.IsUsed(ns[i]);
  }

  // Linking a newly taken node behind the last one of a list.
  lemma NodeAppended(s: Arena, a: Arena, b: Arena, head: int, c: seq<int>, e: int)
    requires Chain(a.rnext, head, c) && Grown(s, a, c) && Grown(a, b, [e])
    requires 0 <= e < |b.rnext| && b.rnext[e] == NIL
    ensures head == NIL <==> c == []
    ensures c != [] ==> 0 <= Last(c) < |b.rnext|
    ensures var next := if c == [] then b.rnext else b.rnext[Last(c) := e];
      && Chain(next, if c == [] then e else head, c + [e])
      && Grown(s, b.(rnext := next), c + [e])
    ensures InArena(c, |a.rect|) && InArena(c + [e], |b.rect|)
    ensures Rects(b.rect, c + [e]) == Rects(a.rect, c) + [b.rect[e]]
  {
    KeptChain(s, a, b, head, c, [e]);
    GrownTrans(s, a, b, c, [e], c + [e]);
    if c != [] {
      LinkLast(b.rnext, c, e);
      GrownWrite(s, b, c + [e], b.rect, b.rnext[Last(c) := e]);
    }
  }

  lemma {:induction false} PiecesCount(hv: set<Side>, t: Rect, b: Rect, k: nat)
    requires k <= |ORDER| && forall s :: s in hv <==> SticksOut(s, t, b)
    ensures Pieces(t, b, k) == [] <==> forall i :: 0 <= i < k ==> ORDER[i] !in hv
  {
    if k > 0 {
      PiecesCount(hv, t, b, k - 1);
    }
  }

  lemma SomePiece(hv: set<Side>, t: Rect, b: Rect)
    requires forall s :: s in hv <==> SticksOut(s, t, b)
    ensures hv == {} <==> Pieces(t, b, |ORDER|) == []
  {
    PiecesCount(hv, t, b, |ORDER|);
    if s :| s in hv {
      assert s == ORDER[match s case Top => 0 case Left => 1 case Right => 2 case Bottom => 3];
    }
  }

  // The two link writes of chgrlist put the expansion behind the old node ...
  lemma ExpansionSpliced(s: Arena, a: Arena, b: Arena, head: int, xr: int, c: seq<int>, k: nat, ns: seq<int>)
    requires Chain(a.rnext, head, c) && Grown(s, a, c) && k < |c|
    requires Chain(b.rnext, xr, ns) && Grown(a, b, ns) && ns != []
    ensures 0 <= c[k] < |b.rnext| && 0 <= Last(ns) < |b.rnext|
    ensures Chain(b.rnext[Last(ns) := b.rnext[c[k]]][c[k] := xr], head, Spliced(c, k, ns))
  {
    KeptChain(s, a, b, head, c, ns);
    SpliceAfter(b.rnext, c, k, ns, NIL);
    SplicedAt(c, k, ns, 0);
  }

  // ... and touch no other node.
  lemma ExpansionGrown(s: Arena, a: Arena, b: Arena, c: seq<int>, k: nat, ns: seq<int>, u: int, v: int)
    requires Grown(s, a, c) && Grown(a, b, ns) && k < |c| && ns != []
    requires 0 <= c[k] < |b.rnext| && 0 <= Last(ns) < |b.rnext|
    ensures Grown(s, b.(rnext := b.rnext[Last(ns) := u][c[k] := v]), Spliced(c, k, ns))
  {
    SplicedMembers(c, k, ns);
    GrownTrans(s, a, b, c, ns, Spliced(c, k, ns));
    assert c[k] in c && Last(ns) in ns;
    GrownWrite(s, b, Spliced(c, k, ns), b.rect, b.rnext[Last(ns) := u][c[k] := v]);
  }

  lemma ReplacedAt(c: seq<int>, k: nat, ns: seq<int>, i: nat)
    requires k < |c| && i < |c| - 1 + |ns|
    ensures |Replaced(c, k, ns)| == |c| - 1 + |ns|
    ensures Replaced(c, k, ns)[i] == if i < k then c[i] else if i < k + |ns| then ns[i - k] else c[i - |ns| + 1]
  {
  }

  // Taking the old node out of the expanded list leaves its pieces in its place.
  lemma WithoutSpliced(before: seq<Rect>, after: seq<Rect>, c: seq<int>, k: nat, ns: seq<int>)
    requires k < |c| && InArena(c, |before|) && InArena(c, |after|) && InArena(ns, |after|)
    requires Rects(before, c) == Rects(after, c)
    ensures Without(Spliced(c, k, ns), k) == Replaced(c, k, ns)
    ensures InArena(Replaced(c, k, ns), |after|)
    ensures Rects(after, Replaced(c, k, ns)) == Rects(before, c)[..k] + Rects(after, ns) + Rects(before, c)[k + 1..]
  {
    var r := Rects(before, c)[..k] + Rects(after, ns) + Rects(before, c)[k + 1..];
    forall i | 0 <= i < |Replaced(c, k, ns)|
      ensures 0 <= Replaced(c, k, ns)[i] < |after| && after[Replaced(c, k, ns)[i]] == r[i]
    {
      ReplacedAt(c, k, ns, i);
      if i < k {
        assert Rects(after, c)[i] == r[i];
      } else if i >= k + |ns| {
        assert Rects(after, c)[i - |ns| + 1] == r[i];
      }
    }
    assert Without(Spliced(c, k, ns), k) == Replaced(c, k, ns);
    assert Rects(after, Replaced(c, k, ns)) == r;
  }

  // In a pool with several blocks no single node is the only used one.
  lemma OneBlockLeft(rused: seq<bool>, numused: seq<int>, blocks: seq<int>, rp: int)
    requires Counted(rused, numused, blocks) && Tidy(numused, blocks)
    requires 0 <= rp < |rused| && rused[rp] && |blocks| > 1
    ensures exists i :: i != rp && 0 <= i < |rused| && rused[i]
  {
    var b := if blocks[0] != Home(rp) then blocks[0] else blocks[1];
    assert b in blocks;
    CountExtremes(rused, b * NUMRECT, b * NUMRECT + NUMRECT);
    var i :| b * NUMRECT <= i < b * NUMRECT + NUMRECT && rused[i];
  }

  lemma NothingLeft(a: Arena, b: Arena)
    requires Grown(a, b, [])
    ensures (forall i :: 0 <= i < |b.rused| ==> !b.rused[i]) <==> forall i :: !a.IsUsed(i)
  {
    if i :| a.IsUsed(i) {
      assert b.IsUsed(i);
    }
    if i :| 0 <= i < |b.rused| && b.rused[i] {
      assert b.IsUsed(i);
    }
  }

  /** What a rectangle list promises: pairwise disjoint non-empty rectangles, together exactly the visible pixels. */
  ghost predicate VisibleRegion(start: Rect, tops: seq<Rect>, rs: seq<Rect>) {
    && AllSolid(rs) && Disjoint(rs)
    && (forall px, py :: Cover(rs, px, py) == if Visible(start, tops, px, py) then 1 else 0)
    && (forall i :: 0 <= i < |rs| ==> Within(rs[i], start))
    && (rs == [] <==> forall px, py :: !Visible(start, tops, px, py))
  }

  lemma RegionCorrect(start: Rect, tops: seq<Rect>, rs: seq<Rect>)
    requires Solid(start) && AllSolid(tops) && Tiles(CutAll([start], tops), rs)
    ensures VisibleRegion(start, tops, rs)
  {
    SolidCutAll([start], tops);
    forall px, py
      ensures Cover(rs, px, py) == if Visible(start, tops, px, py) then 1 else 0
    {
      VisibleExactly(start, tops, px, py);
    }
    DisjointFromCover(rs);
    forall i | 0 <= i < |rs|
      ensures Within(rs[i], start) && Visible(start, tops, rs[i].x, rs[i].y)
    {
      forall px, py | Contains(rs[i], px, py)
        ensures Visible(start, tops, px, py)
      {
        CoverLowerBound(rs, i, px, py);
      }
      assert Contains(rs[i], rs[i].x, rs[i].y);
      PixelsWithin(rs[i], start);
    }
    if rs != [] {
      assert Visible(start, tops, rs[0].x, rs[0].y);
    } else {
      forall px, py
        ensures !Visible(start, tops, px, py)
      {
        assert Cover(rs, px, py) == 0;
      }
    }
  }

  lemma CutAllStep(rs: seq<Rect>, tops: seq<Rect>, m: nat)
    requires m < |tops|
    ensures CutAll(rs, tops[..m + 1]) == CutList(tops[m], CutAll(rs, tops[..m]))
  {
    assert tops[..m + 1][..m] == tops[..m];
  }

  // Nothing left to cut stays nothing.
  lemma {:induction false} CutAllEmpty(rs: seq<Rect>, tops: seq<Rect>, m: nat)
    requires m <= |tops| && CutAll(rs, tops[..m]) == []
    ensures CutAll(rs, tops) == []
    decreases |tops| - m
  {
    if m == |tops| {
      assert tops[..m] == tops;
    } else {
      assert tops[..m + 1][..m] == tops[..m];
      CutAllEmpty(rs, tops, m + 1);
    }
  }
}
