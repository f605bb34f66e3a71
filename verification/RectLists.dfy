/** Visible-region rectangle lists, cut and merged in place (aes/newwrect.c). */
module RectLists {
  import opened Geometry
  import opened Chains
  import opened SlotCount
  import opened Windows
  import opened RectArena

  // WF_WORKXYWH or WF_CURRXYWH
  datatype Area = WorkArea | CurrArea

  function StartRect(w: Window, area: Area): Rect {
    if area == WorkArea then w.work else Shadowed(w)
  }

  // The pixel lies in a rectangle of the list.
  predicate InList(rect: seq<Rect>, c: seq<int>, px: int, py: int)
    requires InArena(c, |rect|)
  {
    exists i :: 0 <= i < |c| && Contains(rect[c[i]], px, py)
  }

  // The pixel lies on one of the windows or its shadow.
  predicate InShadow(ws: map<int, Window>, hs: seq<int>, px: int, py: int)
    requires forall i :: 0 <= i < |hs| ==> hs[i] in ws
  {
    exists i :: 0 <= i < |hs| &&
      var r := ws[hs[i]].curr;
      r.x <= px < r.x + r.w + SHADOW && r.y <= py < r.y + r.h + SHADOW
  }

  // With their shadows the windows have a size.
  predicate Shadowing(ws: map<int, Window>, hs: seq<int>)
    requires forall i :: 0 <= i < |hs| ==> hs[i] in ws
  {
    forall i :: 0 <= i < |hs| ==> ws[hs[i]].curr.w + SHADOW > 0 && ws[hs[i]].curr.h + SHADOW > 0
  }

  lemma ShadowsSolid(ws: map<int, Window>, hs: seq<int>)
    requires forall i :: 0 <= i < |hs| ==> hs[i] in ws
    ensures AllSolid(ShadowsOf(ws, hs)) <==> Shadowing(ws, hs)
    ensures forall i :: 0 <= i < |hs| && Shadowing(ws, hs) ==> Solid(ShadowsOf(ws, hs)[i])
    ensures forall px, py :: Hidden(ShadowsOf(ws, hs), px, py) <==> InShadow(ws, hs, px, py)
  {
    forall px, py
      ensures Hidden(ShadowsOf(ws, hs), px, py) <==> InShadow(ws, hs, px, py)
    {
      if InShadow(ws, hs, px, py) {
        var i :| 0 <= i < |hs| &&
          var r := ws[hs[i]].curr;
          r.x <= px < r.x + r.w + SHADOW && r.y <= py < r.y + r.h + SHADOW;
        assert Contains(ShadowsOf(ws, hs)[i], px, py);
      }
    }
    assert forall i :: 0 <= i < |hs| ==> ShadowsOf(ws, hs)[i] == Shadowed(ws[hs[i]]);
  }

  lemma OwnShadow(ws: map<int, Window>, h: int)
    requires h in ws
    ensures Shadowing(ws, [h]) <==> Solid(StartRect(ws[h], CurrArea))
    ensures forall px, py :: InShadow(ws, [h], px, py) <==> Contains(StartRect(ws[h], CurrArea), px, py)
    ensures StartRect(ws[h], WorkArea) == ws[h].work
  {
    assert [h][0] == h;
  }

  /** The visible region in terms of the nodes on the list and the windows above. */
  lemma RegionPixels(rect: seq<Rect>, c: seq<int>, start: Rect, ws: map<int, Window>, above: seq<int>)
    requires InArena(c, |rect|) && forall i :: 0 <= i < |above| ==> above[i] in ws
    requires VisibleRegion(start, ShadowsOf(ws, above), Rects(rect, c))
    ensures forall px, py :: InList(rect, c, px, py) <==> Contains(start, px, py) && !InShadow(ws, above, px, py)
  {
    ShadowsSolid(ws, above);
    var rs := Rects(rect, c);
    assert forall i :: 0 <= i < |c| ==> rs[i] == rect[c[i]];
    forall px, py
      ensures InList(rect, c, px, py) <==> Visible(start, ShadowsOf(ws, above), px, py)
    {
      if InList(rect, c, px, py) {
        var i :| 0 <= i < |c| && Contains(rect[c[i]], px, py);
        CoverLowerBound(rs, i, px, py);
      } else if Cover(rs, px, py) > 0 {
        CoverWitness(rs, px, py);
      }
    }
  }

  class RectPool {
    var rused: seq<bool>
    var rect: seq<Rect>
    var rnext: seq<int>
    var numused: seq<int>  // per memory block ever allocated
    var blocks: seq<int>   // the blocks from rmhead to rmtail; both are NULL when it is empty

    ghost predicate Valid()
      reads this
    {
      |rused| == |rect| == |rnext| && Counted(rused, numused, blocks)
    }

    // wm_start: one block of unused nodes.
    constructor ()
      ensures Alive() && forall i :: !Now().IsUsed(i)
    {
      rused, rect := seq(NUMRECT, _ => false), seq(NUMRECT, _ => Rect(0, 0, 0, 0));
      rnext := seq(NUMRECT, _ => NIL);
      numused, blocks := [0], [0];
      new;
      CountExtremes(rused, 0, NUMRECT);
    }

    // The pool can still hand out nodes.
    ghost predicate Alive()
      reads this
    {
      Valid() && blocks != [] && Tidy(numused, blocks)
    }

    ghost function Now(): Arena
      reads this
    {
      Arena(rused, rect, rnext)
    }

    // A list of nodes, all taken since a, while everything else used in a is as it was.
    ghost predicate ListSince(a: Arena, head: int, c: seq<int>)
      reads this
    {
      Chain(rnext, head, c) && Grown(a, Now(), c)
    }

    // ---- newrect ----

    // A new memory block, still empty, at the end of the block list.
    method AddBlock()
      requires Valid()
      modifies this
      ensures Valid() && blocks == old(blocks) + [|old(numused)|] && numused == old(numused) + [0]
      ensures |rused| == |old(rused)| + NUMRECT && Grown(old(Now()), Now(), [])
      ensures !rused[|old(rused)|] && Home(|old(rused)|) == |old(numused)|
    {
      CountedGrow(rused, numused, blocks);
      rused := rused + seq(NUMRECT, _ => false);
      rect := rect + seq(NUMRECT, _ => Rect(0, 0, 0, 0));
      rnext := rnext + seq(NUMRECT, _ => NIL);
      blocks := blocks + [|numused|];
      numused := numused + [0];
    }

    method FirstPartlyFree() returns (k: nat)
      requires InArena(blocks, |numused|)
      ensures k <= |blocks| && (k < |blocks| ==> numused[blocks[k]] != NUMRECT)
      ensures k == |blocks| ==> forall b :: b in blocks ==> 0 <= b < |numused| && numused[b] == NUMRECT
    {
      k := 0;
      while k < |blocks| && numused[blocks[k]] == NUMRECT
        invariant k <= |blocks|
        invariant forall j :: 0 <= j < k ==> numused[blocks[j]] == NUMRECT
      {
        k := k + 1;
      }
    }

    method FirstFree(b: int) returns (rp: nat)
      requires Valid() && b in blocks && numused[b] != NUMRECT
      ensures rp < |rused| && !rused[rp] && Home(rp) == b
    {
      CountExtremes(rused, b * NUMRECT, b * NUMRECT + NUMRECT);
      rp := b * NUMRECT;
      while rused[rp]
        invariant b * NUMRECT <= rp < b * NUMRECT + NUMRECT
        invariant forall i :: b * NUMRECT <= i < rp ==> rused[i]
        decreases b * NUMRECT + NUMRECT - rp
      {
        rp := rp + 1;
      }
    }

    // An unused slot in the first block that has one, or in a new block.
    method FreeSlot() returns (rp: nat)
      requires Alive()
      modifies this
      ensures Valid() && Grown(old(Now()), Now(), [])
      ensures rp < |rused| && !rused[rp] && Home(rp) in blocks
      ensures |blocks| > 1 ==> forall b :: b in blocks && b != Home(rp) ==> numused[b] > 0
    {
      var k := FirstPartlyFree();
      hide Counted;
      if k == |blocks| {
        rp := |rused|;
        AddBlock();
      } else {
        rp := FirstFree(blocks[k]);
      }
    }

    method NewRect() returns (rp: int)
      requires Alive()
      modifies this
      ensures Alive() && Grown(old(Now()), Now(), [rp])
      ensures 0 <= rp < |rnext| && rnext[rp] == NIL
    {
      rp := FreeSlot();
      CountedSet(rused, numused, blocks, rp, true);
      numused := numused[Home(rp) := numused[Home(rp)] + 1];
      rused := rused[rp := true];
      rnext := rnext[rp := NIL];
    }

    // ---- delrect ----

    // Give one slot back to its block.
    method Release(rp: int)
      requires Valid() && Now().IsUsed(rp)
      modifies this`rused, this`numused
      ensures Valid()
      ensures rused == old(rused)[rp := false]
      ensures numused == old(numused)[Home(rp) := old(numused)[Home(rp)] - 1]
    {
      CountedSet(rused, numused, blocks, rp, false);
      rused := rused[rp := false];
      numused := numused[Home(rp) := numused[Home(rp)] - 1];
    }

    method NonEmptyBlocks() returns (kept: seq<int>)
      requires InArena(blocks, |numused|) && Distinct(blocks)
      ensures kept == NonEmpty(numused, blocks)
    {
      kept := [];
      var k := 0;
      while k < |blocks|
        invariant k <= |blocks|
        invariant kept == NonEmpty(numused, blocks[..k])
      {
        assert blocks[..k + 1][..k] == blocks[..k];
        if numused[blocks[k]] != 0 {
          kept := kept + [blocks[k]];
        }
        k := k + 1;
      }
      assert blocks[..k] == blocks;
    }

    // The clean-up at the end of delrect: drop empty blocks, unless there is only one block.
    method FreeEmptyBlocks()
      requires Valid()
      modifies this`blocks
      ensures Valid() && Tidy(numused, blocks)
      ensures blocks == [] <==> old(blocks) == [] || (|old(blocks)| > 1 && forall i :: 0 <= i < |rused| ==> !rused[i])
    {
      CountedShrink(rused, numused, blocks);
      if |blocks| > 1 {
        blocks := NonEmptyBlocks();
      }
    }

    // Freeing a single node never frees the last block.
    method ReleaseOne(rp: int)
      requires Alive() && Now().IsUsed(rp)
      modifies this`rused, this`numused, this`blocks
      ensures Alive() && rused == old(rused)[rp := false]
    {
      if |blocks| > 1 {
        OneBlockLeft(rused, numused, blocks, rp);
        var i :| i != rp && 0 <= i < |rused| && rused[i];
        Release(rp);
        assert rused[i];
      } else {
        Release(rp);
      }
      FreeEmptyBlocks();
    }

    method Unlink(rp: int, head: int, ghost c: seq<int>, ghost k: nat) returns (head': int)
      requires Chain(rnext, head, c) && k < |c| && c[k] == rp
      modifies this`rnext
      ensures Chain(rnext, head', Without(c, k))
      ensures |rnext| == |old(rnext)| && forall i :: 0 <= i < |rnext| && i !in c ==> rnext[i] == old(rnext)[i]
    {
      if rp == head {
        head' := rnext[rp];
        UnlinkFirst(rnext, c, NIL);
      } else {
        head' := head;
        var currp := head;
        ghost var j := 0;
        while rnext[currp] != rp
          invariant 0 <= j < k && currp == c[j]
          decreases k - j
        {
          assert rnext[c[j]] == After(c, j, NIL);
          currp, j := rnext[currp], j + 1;
        }
        assert rnext[c[j]] == After(c, j, NIL);
        assert j + 1 == k;
        UnlinkInner(rnext, c, k, NIL);
        rnext := rnext[currp := rnext[rp]];
      }
    }

    // delrect with a rectangle: take it off its list and free its node.
    method DelRect(rp: int, head: int, ghost a: Arena, ghost c: seq<int>, ghost k: nat) returns (head': int)
      requires Alive() && ListSince(a, head, c) && k < |c| && c[k] == rp
      modifies this
      ensures Alive() && ListSince(a, head', Without(c, k)) && rect == old(rect)
    {
      hide Counted;
      ghost var before := Now();
      assert before.IsUsed(c[k]);
      head' := Unlink(rp, head, c, k);
      GrownWrite(a, before, c, rect, rnext);
      GrownDrop(a, Now(), c, k);
      ReleaseOne(rp);
    }

    /**
     delrect without a rectangle: free a whole list. The pool is lost, with rmhead and rmtail both NULL,
     exactly when it had several blocks and this list held every used node.
     */
    method DelList(head: int, ghost a: Arena, ghost c: seq<int>)
      requires Alive() && ListSince(a, head, c) && c != []
      modifies this`rused, this`numused, this`blocks
      ensures Valid() && Grown(a, Now(), [])
      ensures Alive() <==> !(|old(blocks)| > 1 && forall i :: old(Now()).IsUsed(i) ==> i in c)
    {
      ghost var without := Dropped(Now(), c);
      GrownSplit(a, Now(), c);
      ReleaseAll(head, without, c);
      GrownTrans(a, without, Now(), [], [], []);
      NothingLeft(without, Now());
      FreeEmptyBlocks();
    }

    // The do-while loop of delrect.
    method ReleaseAll(head: int, ghost a: Arena, ghost c: seq<int>)
      requires Valid() && ListSince(a, head, c) && c != []
      modifies this`rused, this`numused
      ensures Valid() && Grown(a, Now(), []) && blocks == old(blocks)
    {
      hide Counted, Grown, RectPool.Valid;
      var currp := head;
      ghost var k, rest := 0, c;
      while true
        invariant 0 <= k < |c| && currp == c[k] && rest == c[k..]
        invariant Valid() && Grown(a, Now(), rest)
        decreases |c| - k
      {
        ReleaseHead(currp, a, rest);
        assert rnext[c[k]] == After(c, k, NIL);
        currp, k, rest := rnext[currp], k + 1, rest[1..];
        if currp == NIL {
          break;
        }
      }
      assert rest == [];
    }

    method ReleaseHead(currp: int, ghost a: Arena, ghost rest: seq<int>)
      requires Valid() && Grown(a, Now(), rest) && Distinct(rest) && rest != [] && rest[0] == currp
      modifies this`rused, this`numused
      ensures Valid() && Grown(a, Now(), rest[1..])
    {
      assert Without(rest, 0) == rest[1..];
      GrownDrop(a, Now(), rest, 0);
      assert Now().IsUsed(rest[0]);
      Release(currp);
    }

    // ---- brkrect, mkrect, chgrlist, mrgrect ----

    method MkRect(pc: Side, trect: Rect, brect: Rect) returns (rp: int)
      requires Alive()
      modifies this
      ensures Alive() && Grown(old(Now()), Now(), [rp])
      ensures 0 <= rp < |rnext| && rnext[rp] == NIL && rect[rp] == Piece(pc, trect, brect)
    {
      rp := NewRect();
      hide Counted;
      ghost var before := Now();
      var y := Max(brect.y, trect.y);
      var nrect := Rect(brect.x, y, brect.w, Min(brect.y + brect.h, trect.y + trect.h) - y);
      match pc {
        case Top => nrect := nrect.(y := brect.y, h := trect.y - brect.y);
        case Left => nrect := nrect.(w := trect.x - brect.x);
        case Right => nrect := nrect.(x := trect.x + trect.w, w := (brect.x + brect.w) - (trect.x + trect.w));
        case Bottom => nrect := nrect.(y := trect.y + trect.h, h := (brect.y + brect.h) - (trect.y + trect.h));
      }
      rect := rect[rp := nrect];
      GrownWrite(old(Now()), before, [rp], rect, rnext);
    }

    // The expansion built by chgrlist: new nodes for the sides in hv, in the order of the mask bits.
    method MkPieces(hv: set<Side>, cutrect: Rect, oldrect: Rect) returns (xrlist: int, currp: int, ghost ns: seq<int>)
      requires Alive()
      requires forall s :: s in hv <==> SticksOut(s, cutrect, oldrect)
      modifies this
      ensures Alive() && ListSince(old(Now()), xrlist, ns) && currp == Last(ns)
      ensures InArena(ns, |rect|) && Rects(rect, ns) == Pieces(cutrect, oldrect, |ORDER|)
    {
      xrlist, currp, ns := NIL, NIL, [];
      assert ListSince(Now(), xrlist, ns);
      ghost var a := Now();
      hide Counted, Tidy, RectPool.ListSince, SticksOut, Piece;
      var pc := 0;
      while pc < |ORDER|
        invariant 0 <= pc <= |ORDER| && Alive()
        invariant ListSince(a, xrlist, ns) && currp == Last(ns)
        invariant InArena(ns, |rect|) && Rects(rect, ns) == Pieces(cutrect, oldrect, pc)
      {
        if ORDER[pc] in hv {
          xrlist, currp, ns := AppendPiece(ORDER[pc], cutrect, oldrect, xrlist, currp, a, ns);
        }
        pc := pc + 1;
      }
    }

    method AppendPiece(pc: Side, cutrect: Rect, oldrect: Rect, xr: int, last: int, ghost a: Arena, ghost ms: seq<int>)
      returns (xrlist: int, currp: int, ghost ns: seq<int>)
      requires Alive() && ListSince(a, xr, ms) && last == Last(ms) && InArena(ms, |rect|)
      modifies this
      ensures Alive() && ListSince(a, xrlist, ns) && currp == Last(ns) && InArena(ns, |rect|)
      ensures Rects(rect, ns) == Rects(old(rect), ms) + [Piece(pc, cutrect, oldrect)]
    {
      hide Counted, Tidy, Grown, Linked, Piece;
      ghost var b := Now();
      var nrp := MkRect(pc, cutrect, oldrect);
      ns := ms + [nrp];
      NodeAppended(a, b, Now(), xr, ms, nrp);
      if xr != NIL {
        rnext := rnext[last := nrp];
        xrlist := xr;
      } else {
        xrlist := nrp;
      }
      currp := nrp;
    }

    // brkrect: does trect hide part of brect, and which sides stick out?
    method BrkRect(trect: Rect, brect: Rect) returns (broken: bool, hv: set<Side>)
      ensures broken <==> Overlaps(trect, brect)
      ensures broken ==> forall s :: s in hv <==> SticksOut(s, trect, brect)
    {
      broken, hv := false, {};
      if trect.x < brect.x + brect.w && trect.x + trect.w > brect.x && trect.y < brect.y + brect.h
        && trect.y + trect.h > brect.y {
        if trect.y > brect.y {
          hv := hv + {Top};
        }
        if trect.x > brect.x {
          hv := hv + {Left};
        }
        if trect.x + trect.w < brect.x + brect.w {
          hv := hv + {Right};
        }
        if trect.y + trect.h < brect.y + brect.h {
          hv := hv + {Bottom};
        }
        broken := true;
      }
    }

    // chgrlist: replace the node oldrp, position k of the list, by nodes for the pieces that stick out.
    method ChgrList(hv: set<Side>, cutrect: Rect, oldrp: int, head: int, ghost a: Arena, ghost c: seq<int>,
                    ghost k: nat)
      returns (head': int, ghost ns: seq<int>)
      requires Alive() && ListSince(a, head, c) && k < |c| && c[k] == oldrp && InArena(c, |rect|)
      requires forall s :: s in hv <==> SticksOut(s, cutrect, rect[oldrp])
      modifies this
      ensures Alive() && ListSince(a, head', Replaced(c, k, ns)) && InArena(Replaced(c, k, ns), |rect|)
      ensures Rects(rect, Replaced(c, k, ns))
           == Rects(old(rect), c)[..k] + Pieces(cutrect, old(rect)[oldrp], |ORDER|) + Rects(old(rect), c)[k + 1..]
    {
      hide Counted, Tidy, Grown, Linked, Piece, SticksOut;
      ghost var before := rect;
      ns := [];
      SomePiece(hv, cutrect, rect[oldrp]);
      if hv != {} {
        ns := Expand(hv, cutrect, oldrp, head, a, c, k);
      } else {
        assert Spliced(c, k, ns) == c;
      }
      WithoutSpliced(before, rect, c, k, ns);
      head' := DelRect(oldrp, head, a, Spliced(c, k, ns), k);
    }

    // The first half of chgrlist: the pieces are linked in behind the node they will replace.
    method Expand(hv: set<Side>, cutrect: Rect, oldrp: int, head: int, ghost a: Arena, ghost c: seq<int>, ghost k: nat)
      returns (ghost ns: seq<int>)
      requires Alive() && ListSince(a, head, c) && k < |c| && c[k] == oldrp && InArena(c, |rect|)
      requires hv != {} && forall s :: s in hv <==> SticksOut(s, cutrect, rect[oldrp])
      modifies this
      ensures Alive() && ListSince(a, head, Spliced(c, k, ns)) && Spliced(c, k, ns)[k] == oldrp
      ensures InArena(c, |rect|) && InArena(ns, |rect|)
      ensures Rects(rect, c) == Rects(old(rect), c) && Rects(rect, ns) == Pieces(cutrect, old(rect)[oldrp], |ORDER|)
    {
      hide Counted, Tidy, Grown, Linked, Piece, SticksOut;
      ghost var before := Now();
      SomePiece(hv, cutrect, rect[oldrp]);
      var xrlist, currp;
      xrlist, currp, ns := MkPieces(hv, cutrect, rect[oldrp]);
      KeptChain(a, before, Now(), head, c, ns);
      ExpansionSpliced(a, before, Now(), head, xrlist, c, k, ns);
      ExpansionGrown(a, before, Now(), c, k, ns, rnext[oldrp], xrlist);
      SplicedAt(c, k, ns, k);
      rnext := rnext[currp := rnext[oldrp]];
      rnext := rnext[oldrp := xrlist];
    }

    // mrgrect: the first rectangle takes in the second if that lies directly below it.
    method MrgRect(rp1: int, rp2: int) returns (merged: bool)
      requires Valid() && 0 <= rp1 < |rect| && 0 <= rp2 < |rect|
      modifies this`rect
      ensures merged <==> Mergeable(old(rect)[rp1], old(rect)[rp2])
      ensures rect == if merged then old(rect)[rp1 := Grow(old(rect)[rp1], old(rect)[rp2])] else old(rect)
    {
      var gr1, gr2 := rect[rp1], rect[rp2];
      merged := gr1.x == gr2.x && gr1.w == gr2.w && gr1.y + gr1.h == gr2.y;
      if merged {
        rect := rect[rp1 := gr1.(h := gr1.h + gr2.h)];
      }
    }

    // ---- genrlist ----

    // One round of the main loop: cut every rectangle of the list by one window above.
    method CutPass(wrect: Rect, head: int, ghost a: Arena, ghost c: seq<int>) returns (rlist: int, ghost d: seq<int>)
      requires Alive() && ListSince(a, head, c) && InArena(c, |rect|)
      modifies this
      ensures Alive() && ListSince(a, rlist, d) && InArena(d, |rect|)
      ensures Rects(rect, d) == CutList(wrect, Rects(old(rect), c))
    {
      hide Counted, Tidy, Grown, CutList, Pieces;
      rlist, d := head, c;
      ghost var orig, done, m := Rects(rect, c), 0, 0;
      var rnextrp := rlist;
      PassStart(wrect, orig);
      while rnextrp != NIL
        invariant Alive() && ListSince(a, rlist, d) && InArena(d, |rect|)
        invariant 0 <= done <= |d| && rnextrp == Head(d[done..], NIL)
        invariant PassState(wrect, orig, m, Rects(rect, d), done)
        decreases |orig| - m
      {
        var currp := rnextrp;
        assert d[done..][0] == d[done];
        assert rnext[d[done]] == After(d, done, NIL);
        rnextrp := rnext[currp];
        PassStep(wrect, orig, m, Rects(rect, d), done);
        rlist, d, done := CutNode(wrect, currp, rlist, a, d, done);
        m := m + 1;
      }
      assert done == |d|;
      PassStep(wrect, orig, m, Rects(rect, d), done);
    }

    method CutNode(wrect: Rect, currp: int, head: int, ghost a: Arena, ghost c: seq<int>, ghost k: nat)
      returns (rlist: int, ghost d: seq<int>, ghost k': nat)
      requires Alive() && ListSince(a, head, c) && InArena(c, |rect|) && k < |c| && c[k] == currp
      modifies this
      ensures Alive() && ListSince(a, rlist, d) && InArena(d, |rect|)
      ensures k' <= |d| && d[k'..] == c[k + 1..]
      ensures k' == k + |CutOne(wrect, old(rect)[currp])|
      ensures Rects(rect, d)
           == Rects(old(rect), c)[..k] + CutOne(wrect, old(rect)[currp]) + Rects(old(rect), c)[k + 1..]
    {
      hide Counted, Tidy, Grown, Linked, Pieces;
      var broken, hv := BrkRect(wrect, rect[currp]);
      if broken {
        ghost var ns;
        rlist, ns := ChgrList(hv, wrect, currp, head, a, c, k);
        d := Replaced(c, k, ns);
        k' := k + |ns|;
        assert |Rects(rect, d)| == |d|;
        assert d[k'..] == c[k + 1..];
      } else {
        rlist, d, k' := head, c, k + 1;
        assert Rects(rect, c)[..k] + [Rects(rect, c)[k]] + Rects(rect, c)[k + 1..] == Rects(rect, c);
      }
    }

    // Try one pair of the merge loop; a merged second rectangle leaves the list.
    method MergePair(currp: int, rnextrp: int, head: int, ghost a: Arena, ghost c: seq<int>, ghost i: nat, ghost j: nat)
      returns (merged: bool, rlist: int, ghost d: seq<int>)
      requires Alive() && ListSince(a, head, c) && InArena(c, |rect|)
      requires i < j < |c| && c[i] == currp && c[j] == rnextrp
      modifies this
      ensures Alive() && ListSince(a, rlist, d) && InArena(d, |rect|)
      ensures merged <==> Mergeable(Rects(old(rect), c)[i], Rects(old(rect), c)[j])
      ensures d == if merged then Without(c, j) else c
      ensures Rects(rect, d) == if merged then Merged(Rects(old(rect), c), i, j) else Rects(old(rect), c)
    {
      hide Counted, Tidy;
      ghost var before := Now();
      merged := MrgRect(currp, rnextrp);
      rlist, d := head, c;
      GrownWrite(a, before, c, rect, rnext);
      if merged {
        RectsSet(before.rect, c, i, rect[currp]);
        RectsWithout(rect, c, j);
        hide Grown, Linked;
        rlist := DelRect(rnextrp, head, a, c, j);
        d := Without(c, j);
      }
    }

    // One round of the inner merge loop, with the choice of the next candidate.
    method MergeStep(currp: int, cand: int, head: int, ghost a: Arena, ghost c: seq<int>, ghost i: nat, ghost j: nat,
                     ghost orig: seq<Rect>)
      returns (rnextrp: int, rlist: int, ghost d: seq<int>, ghost j': nat)
      requires Alive() && ListSince(a, head, c) && InArena(c, |rect|)
      requires i < j < |c| && c[i] == currp && c[j] == cand
      requires SettledTo(Rects(rect, c), i, j) && Tiles(orig, Rects(rect, c))
      modifies this
      ensures Alive() && ListSince(a, rlist, d) && InArena(d, |rect|)
      ensures i < j' <= |d| && d[i] == currp && rnextrp == After(d, j' - 1, NIL)
      ensures SettledTo(Rects(rect, d), i, j') && Tiles(orig, Rects(rect, d))
      ensures |d| < |c| || (|d| == |c| && j' == j + 1)
    {
      PairTried(orig, Rects(rect, c), i, j);
      hide Counted, Tidy, Grown, Tiles, Settled, SettledTo, Mergeable, Merged;
      var merged;
      merged, rlist, d := MergePair(currp, cand, head, a, c, i, j);
      if merged {
        assert rnext[d[i]] == After(d, i, NIL);
        rnextrp, j' := rnext[currp], i + 1;
      } else {
        assert rnext[d[j]] == After(d, j, NIL);
        rnextrp, j' := rnext[cand], j + 1;
      }
    }

    // The inner merge loop: the rectangle at position i takes in whatever it can.
    method AbsorbLater(currp: int, head: int, ghost a: Arena, ghost c: seq<int>, ghost i: nat)
      returns (rlist: int, ghost d: seq<int>)
      requires Alive() && ListSince(a, head, c) && InArena(c, |rect|) && i < |c| && c[i] == currp
      requires Settled(Rects(rect, c), i)
      modifies this
      ensures Alive() && ListSince(a, rlist, d) && InArena(d, |rect|) && i < |d| && d[i] == currp
      ensures Settled(Rects(rect, d), i + 1) && Tiles(Rects(old(rect), c), Rects(rect, d))
    {
      rlist, d := head, c;
      ghost var orig, j := Rects(rect, c), i + 1;
      assert rnext[c[i]] == After(c, i, NIL);
      assert Tiles(orig, orig) && SettledTo(orig, i, j);
      var rnextrp := rnext[currp];
      hide Counted, Tidy, Grown, Linked, Tiles, Settled, SettledTo;
      while rnextrp != NIL
        invariant Alive() && ListSince(a, rlist, d) && InArena(d, |rect|)
        invariant i < j <= |d| && d[i] == currp && rnextrp == After(d, j - 1, NIL)
        invariant SettledTo(Rects(rect, d), i, j) && Tiles(orig, Rects(rect, d))
        decreases |d|, |d| - j
      {
        rnextrp, rlist, d, j := MergeStep(currp, rnextrp, rlist, a, d, i, j, orig);
      }
      AllTried(Rects(rect, d), i, j);
    }

    // The outer merge loop.
    method MergePass(head: int, ghost a: Arena, ghost c: seq<int>) returns (rlist: int, ghost d: seq<int>)
      requires Alive() && ListSince(a, head, c) && InArena(c, |rect|)
      modifies this
      ensures Alive() && ListSince(a, rlist, d) && InArena(d, |rect|)
      ensures Settled(Rects(rect, d), |d|) && Tiles(Rects(old(rect), c), Rects(rect, d))
      ensures d == [] <==> c == []
    {
      rlist, d := head, c;
      ghost var orig, i := Rects(rect, c), 0;
      assert Tiles(orig, orig);
      hide Counted, Tidy, Grown, SameCover, Mergeable;
      var currp := rlist;
      while currp != NIL
        invariant Alive() && ListSince(a, rlist, d) && InArena(d, |rect|)
        invariant i <= |d| && currp == (if i < |d| then d[i] else NIL)
        invariant Settled(Rects(rect, d), i) && Tiles(orig, Rects(rect, d))
        invariant d == [] <==> c == []
        decreases |d| - i
      {
        ghost var before := Rects(rect, d);
        rlist, d := AbsorbLater(currp, rlist, a, d, i);
        TilesTrans(orig, before, Rects(rect, d));
        assert rnext[d[i]] == After(d, i, NIL);
        currp, i := rnext[currp], i + 1;
      }
    }

    /**
     genrlist: the list for a window under the windows on its ontop chain, after which comes e. What is taken from the
     pool is exactly the list; with positive sizes it is the visible region, and no rectangle can absorb a later one.
     The chain of a closed window is left from an earlier time. If it leads to a window that is gone, the source reads
     through NULL (ok is false), unless the windows before it hide everything.
     */
    method GenRList(ws: map<int, Window>, handle: int, area: Area, ghost above: seq<int>, ghost e: int)
      returns (rlist: int, ok: bool, ghost c: seq<int>)
      requires Alive()
      requires handle in ws ==> Trail(ws, handle, above, e)
      modifies this
      ensures Alive() && ListSince(old(Now()), rlist, c) && InArena(c, |rect|)
      ensures
        ok <==> handle !in ws || e == NIL || CutAll([StartRect(ws[handle], area)], ShadowsOf(ws, above)) == []
      ensures handle !in ws ==> rlist == NIL && Now() == old(Now())
      ensures ok ==> Settled(Rects(rect, c), |c|)
      ensures ok && handle in ws && Solid(StartRect(ws[handle], area)) && AllSolid(ShadowsOf(ws, above)) ==>
                VisibleRegion(StartRect(ws[handle], area), ShadowsOf(ws, above), Rects(rect, c))
      ensures ok && handle in ws && area == WorkArea && Solid(ws[handle].work) && Shadowing(ws, above) ==>
                forall px, py :: InList(rect, c, px, py) <==>
                  Contains(ws[handle].work, px, py) && !InShadow(ws, above, px, py)
      ensures ok && handle in ws && area == CurrArea && Shadowing(ws, [handle]) && Shadowing(ws, above) ==>
                forall px, py :: InList(rect, c, px, py) <==>
                  InShadow(ws, [handle], px, py) && !InShadow(ws, above, px, py)
    {
      c, ok := [], true;
      if handle !in ws {
        return NIL, true, [];
      }
      ghost var a, start, tops := Now(), StartRect(ws[handle], area), ShadowsOf(ws, above);
      rlist, ok, c := CutUncovered(ws, handle, area, above, e);
      hide Counted, Tidy, Grown, Linked, Tiles, VisibleRegion, CutAll, AllSolid, InList, InShadow, Shadowing;
      if !ok {
        return;
      }
      rlist, c := MergePass(rlist, a, c);
      ShadowsSolid(ws, above);
      OwnShadow(ws, handle);
      if Solid(start) && AllSolid(tops) {
        RegionCorrect(start, tops, Rects(rect, c));
        RegionPixels(rect, c, start, ws, above);
      }
    }

    // The list before the merge loop.
    method CutUncovered(ws: map<int, Window>, handle: int, area: Area, ghost above: seq<int>, ghost e: int)
      returns (rlist: int, ok: bool, ghost c: seq<int>)
      requires Alive() && Trail(ws, handle, above, e)
      modifies this
      ensures Alive() && ListSince(old(Now()), rlist, c) && InArena(c, |rect|)
      ensures Rects(rect, c) == CutAll([StartRect(ws[handle], area)], ShadowsOf(ws, above))
      ensures ok <==> e == NIL || CutAll([StartRect(ws[handle], area)], ShadowsOf(ws, above)) == []
    {
      ghost var a, start, tops := Now(), StartRect(ws[handle], area), ShadowsOf(ws, above);
      rlist, c := FirstRect(StartRect(ws[handle], area));
      ok := true;
      assert rlist != NIL && c != [];
      hide Counted, Tidy, Grown, Linked, CutList, CutAll;
      var wp := ws[handle];
      ghost var m := 0;
      while wp.ontop != NIL && rlist != NIL
        invariant Alive() && ListSince(a, rlist, c) && InArena(c, |rect|)
        invariant m <= |above| && wp.ontop == if m < |above| then above[m] else e
        invariant Rects(rect, c) == CutAll([start], tops[..m])
        decreases |above| - m
      {
        if wp.ontop !in ws {
          assert tops[..m] == tops;
          return rlist, false, c;
        }
        wp := ws[wp.ontop];
        assert ws[above[m]].ontop == After(above, m, e);
        CutAllStep([start], tops, m);
        rlist, c := CutPass(Shadowed(wp), rlist, a, c);
        m := m + 1;
      }
      if rlist == NIL {
        CutAllEmpty([start], tops, m);
      } else {
        assert tops[..m] == tops;
      }
    }

    method FirstRect(start: Rect) returns (rlist: int, ghost c: seq<int>)
      requires Alive()
      modifies this
      ensures Alive() && ListSince(old(Now()), rlist, c) && InArena(c, |rect|)
      ensures Rects(rect, c) == [start] && CutAll(Rects(rect, c), []) == Rects(rect, c)
    {
      hide Counted, Tidy;
      rlist := NewRect();
      c := [rlist];
      ghost var before := Now();
      rect := rect[rlist := start];
      GrownWrite(old(Now()), before, c, rect, rnext);
    }
  }
}
