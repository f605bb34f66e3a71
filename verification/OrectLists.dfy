/** The older rectangle lists, kept up to date window by window over a shared free list (aes/gemwrect.c). */
module OrectLists {
  import opened Chains
  import opened Geometry
  import opened RectArena
  import opened ListCount
  import opened OrectPool
  import opened OrectRegions

  // The list root of a window, used as if it were the node before the first one.
  const AT_ROOT := -2

  class WindowRects {
    var rect: seq<Rect>     // o_gr
    var link: seq<int>      // o_link
    var rul: int            // head of the free list
    var heads: seq<int>     // w_rlist of every window
    var broken: seq<bool>   // VF_BROKEN of every window
    ghost var free: seq<int>
    ghost var lists: seq<seq<int>>
    ghost var owner: seq<int>

    ghost function Now(): Pool
      reads this`link, this`rul, this`heads, this`free, this`lists, this`owner
    {
      Pool(link, rul, heads, free, lists, owner)
    }

    // or_start: all n nodes are free; none of the windows has a rectangle.
    constructor (n: nat, windows: nat)
      ensures Valid() && |lists| == windows && |link| == n && |free| == n
      ensures forall w :: 0 <= w < windows ==> lists[w] == [] && !broken[w]
    {
      rect, link, rul := seq(n, _ => Rect(0, 0, 0, 0)), seq(n, i => i - 1), n - 1;
      heads, broken := seq(windows, _ => NIL), seq(windows, _ => false);
      free, lists, owner := seq(n, i => n - 1 - i), seq(windows, _ => []), seq(n, _ => FREE);
      new;
      forall i | 0 <= i < n
        ensures i in free
      {
        assert free[n - 1 - i] == i;
      }
    }

    ghost predicate Valid()
      reads this
    {
      Holding(Now(), rect) && |broken| == |heads|
    }

    ghost function Show(w: nat): seq<Rect>
      requires Holding(Now(), rect) && w < |lists|
      reads this`rect, this`link, this`rul, this`heads, this`free, this`lists, this`owner
    {
      ShowOf(Now(), rect, w)
    }

    // p points at the node before position k of window w's list.
    ghost predicate Before(p: int, w: nat, k: nat)
      reads this`lists
    {
      w < |lists| && k <= |lists[w]| && p == if k == 0 then AT_ROOT else lists[w][k - 1]
    }

    // p = (p->o_link = mkpiece(...)): a piece of r is taken from the free list and linked in before r.
    method AddPiece(tlrb: Side, new_: Rect, r: int, p: int, w: nat, ghost k: nat) returns (ok: bool, p': int)
      requires Holding(Now(), rect) && Before(p, w, k) && k < |lists[w]| && lists[w][k] == r
      modifies this
      ensures !ok ==> rul == NIL
      ensures ok ==> old(free) != [] && Now() == Taken(old(Now()), w, k) && p' == old(free)[0]
      ensures ok ==> |rect| == |old(rect)| && rect == old(rect)[p' := Piece(tlrb, new_, old(rect)[r])]
      ensures broken == old(broken)
    {
      hide Holding, InArena, Inserted;
      TakeFacts(Now(), rect, w, k);
      ok, p' := rul != NIL, rul;
      if !ok {
        return;
      }
      ghost var q := Taken(Now(), w, k);
      rul := link[p'];
      link := link[p' := r];
      var old_ := rect[r];
      var y := Max(old_.y, new_.y);
      var gr := Rect(old_.x, y, old_.w, Min(old_.y + old_.h, new_.y + new_.h) - y);
      match tlrb {
        case Top => gr := gr.(y := old_.y, h := new_.y - old_.y);
        case Left => gr := gr.(w := new_.x - old_.x);
        case Right => gr := gr.(x := new_.x + new_.w, w := (old_.x + old_.w) - (new_.x + new_.w));
        case Bottom => gr := gr.(y := new_.y + new_.h, h := (old_.y + old_.h) - (new_.y + new_.h));
      }
      rect := rect[p' := gr];
      if p == AT_ROOT {
        heads := heads[w := p'];
      } else {
        link := link[p := p'];
      }
      free, lists, owner := free[1..], lists[w := Inserted(lists[w], k, p')], owner[p' := w];
      assert Now() == q;
    }

    // The same step, seen through the rectangles on the lists.
    method PutPiece(tlrb: Side, new_: Rect, r: int, p: int, w: nat, ghost k: nat) returns (ok: bool, p': int)
      requires Holding(Now(), rect) && Before(p, w, k) && k < |lists[w]| && lists[w][k] == r
      modifies this
      ensures !ok ==> rul == NIL
      ensures broken == old(broken)
      ensures ok ==> Holding(Now(), rect) && OnlyWindow(old(Now()), old(rect), Now(), rect, w)
      ensures ok ==> lists[w] == Inserted(old(lists[w]), k, p')
      ensures ok ==> Show(w) == Inserted(old(Show(w)), k, Piece(tlrb, new_, old(Show(w))[k]))
    {
      ghost var before, rect0 := Now(), rect;
      ok, p' := AddPiece(tlrb, new_, r, p, w, k);
      if ok {
        ShowTaken(before, rect0, w, k, Piece(tlrb, new_, rect0[r]));
      }
    }

    // Unlink the node r at position k of window w's list and give it back.
    method TakeOut(r: int, p: int, w: nat, ghost k: nat)
      requires Holding(Now(), rect) && Before(p, w, k) && k < |lists[w]| && lists[w][k] == r
      modifies this
      ensures Holding(Now(), rect) && OnlyWindow(old(Now()), old(rect), Now(), rect, w) && broken == old(broken)
      ensures lists[w] == Without(old(lists[w]), k) && Show(w) == Without(old(Show(w)), k)
    {
      hide Holding, OnlyWindow, Without;
      ReturnFacts(Now(), rect, w, k);
      ShowReturned(Now(), rect, w, k);
      ghost var q := Returned(Now(), w, k);
      if p == AT_ROOT {
        heads := heads[w := link[r]];
      } else {
        link := link[p := link[r]];
      }
      link := link[r := rul];
      rul := r;
      free, lists, owner := [r] + free, lists[w := Without(lists[w], k)], owner[r := FREE];
      assert Now() == q;
    }

    // Since q0 and rect1, the rectangle at position d of window w's list has been replaced by what new_ leaves of it.
    ghost predicate Stepped(q0: Pool, rect1: seq<Rect>, new_: Rect, w: nat, d: nat, p': int, d': nat)
      reads this`rect, this`link, this`rul, this`heads, this`free, this`lists, this`owner
    {
      && Holding(q0, rect1) && w < |q0.lists| && d < |ShowOf(q0, rect1, w)|
      && Holding(Now(), rect) && OnlyWindow(q0, rect1, Now(), rect, w) && Before(p', w, d')
      && d' == d + |CutOne(new_, ShowOf(q0, rect1, w)[d])|
      && Show(w) == ShowOf(q0, rect1, w)[..d] + CutOne(new_, ShowOf(q0, rect1, w)[d]) + ShowOf(q0, rect1, w)[d + 1..]
    }

    /**
     brkrct: break up the rectangle r by new_. A NULL result says the two do not overlap; otherwise the pieces stand
     where r stood and the result points at the last of them (or at what preceded r). It fails only if the free list
     runs out.
     */
    method BrkRct(new_: Rect, r: int, p: int, w: nat, ghost k: nat) returns (ok: bool, q: int, ghost k': nat)
      requires Holding(Now(), rect) && Before(p, w, k) && k < |lists[w]| && lists[w][k] == r
      modifies this
      ensures !ok ==> rul == NIL
      ensures broken == old(broken)
      ensures ok ==> (q == NIL <==> !Overlaps(new_, old(Show(w))[k]))
      ensures ok && q != NIL ==> Stepped(old(Now()), old(rect), new_, w, k, q, k')
      ensures ok && q == NIL ==> Now() == old(Now()) && rect == old(rect)
    {
      hide Holding, OnlyWindow, ShowOf, Pieces, SticksOut, Piece;
      ShowsNode(Now(), rect, w, k);
      if !(new_.x < rect[r].x + rect[r].w && new_.x + new_.w > rect[r].x
           && new_.y < rect[r].y + rect[r].h && new_.y + new_.h > rect[r].y) {
        return true, NIL, k;
      }
      ok, q := BreakUp(new_, r, p, w, k);
      k' := k + |Pieces(new_, old(Show(w))[k], |ORDER|)|;
    }

    method BreakUp(new_: Rect, r: int, p: int, w: nat, ghost k: nat) returns (ok: bool, q: int)
      requires Holding(Now(), rect) && Before(p, w, k) && k < |lists[w]| && lists[w][k] == r
      modifies this
      ensures !ok ==> rul == NIL
      ensures broken == old(broken)
      ensures ok ==> Holding(Now(), rect) && OnlyWindow(old(Now()), old(rect), Now(), rect, w)
      ensures ok ==> Before(q, w, k + |Pieces(new_, old(Show(w))[k], |ORDER|)|) && q != NIL
      ensures ok ==> Show(w) == old(Show(w))[..k] + Pieces(new_, old(Show(w))[k], |ORDER|) + old(Show(w))[k + 1..]
    {
      ghost var p0, rect0, c, show := Now(), rect, lists[w], Show(w);
      hide Pieces, Piece, SticksOut;
      ok, q := PutPieces(new_, r, p, w, k);
      if ok {
        ghost var q0, rect1, ps := Now(), rect, Pieces(new_, show[k], |ORDER|);
        hide Holding, OnlyWindow;
        BrokenUp(show, k, ps);
        TailWithout(c, k, lists[w], k + |ps|);
        hide Without;
        TakeOut(r, q, w, k + |ps|);
        OnlyWindowTrans(p0, rect0, q0, rect1, Now(), rect, w);
      }
    }

    // Since p0 and rect0, window w's list has been opened before position k for the rectangles ps; q precedes r.
    ghost predicate OpenedSince(p0: Pool, rect0: seq<Rect>, w: nat, k: nat, ps: seq<Rect>, q: int)
      reads this`rect, this`link, this`rul, this`heads, this`free, this`lists, this`owner
    {
      && Holding(p0, rect0) && w < |p0.lists| && k < |p0.lists[w]|
      && Holding(Now(), rect) && OnlyWindow(p0, rect0, Now(), rect, w)
      && Show(w) == Opened(ShowOf(p0, rect0, w), k, ps)
      && Before(q, w, k + |ps|) && lists[w][k + |ps|..] == p0.lists[w][k..]
    }

    lemma NothingOpened(p: int, w: nat, k: nat)
      requires Holding(Now(), rect) && Before(p, w, k) && k < |lists[w]|
      ensures OpenedSince(Now(), rect, w, k, [], p)
    {
      OpenedStart(Show(w), k);
    }

    // The loop over the four sides.
    method PutPieces(new_: Rect, r: int, p: int, w: nat, ghost k: nat) returns (ok: bool, q: int)
      requires Holding(Now(), rect) && Before(p, w, k) && k < |lists[w]| && lists[w][k] == r
      modifies this
      ensures !ok ==> rul == NIL
      ensures broken == old(broken)
      ensures ok ==> OpenedSince(old(Now()), old(rect), w, k, Pieces(new_, old(Show(w))[k], |ORDER|), q)
    {
      hide WindowRects.OpenedSince, Holding, ShowOf, Piece, Pieces;
      ok, q := true, p;
      ghost var p0, rect0 := Now(), rect;
      ShowsNode(p0, rect0, w, k);
      ghost var b := ShowOf(p0, rect0, w)[k];
      NothingOpened(p, w, k);
      var havePiece := [
        new_.y > rect[r].y,
        new_.x > rect[r].x,
        new_.x + new_.w < rect[r].x + rect[r].w,
        new_.y + new_.h < rect[r].y + rect[r].h
      ];
      assert forall j :: 0 <= j < 4 ==> havePiece[j] == SticksOut(ORDER[j], new_, b);
      hide SticksOut;
      PiecesStep(new_, b, 0);
      var i := 0;
      while i < 4
        invariant 0 <= i <= 4 && broken == old(broken)
        invariant OpenedSince(p0, rect0, w, k, Pieces(new_, b, i), q)
      {
        PiecesStep(new_, b, i);
        if havePiece[i] {
          ok, q := PutNext(ORDER[i], new_, r, q, w, k, p0, rect0, Pieces(new_, b, i));
          if !ok {
            return;
          }
        }
        i := i + 1;
      }
    }

    method PutNext(tlrb: Side, new_: Rect, r: int, q: int, w: nat, ghost k: nat,
                   ghost p0: Pool, ghost rect0: seq<Rect>, ghost ps: seq<Rect>)
      returns (ok: bool, q': int)
      requires OpenedSince(p0, rect0, w, k, ps, q) && p0.lists[w][k] == r
      modifies this
      ensures !ok ==> rul == NIL
      ensures broken == old(broken)
      ensures ok ==> OpenedSince(p0, rect0, w, k, ps + [Piece(tlrb, new_, ShowOf(p0, rect0, w)[k])], q')
    {
      ghost var q0, rect1, show, c := Now(), rect, ShowOf(p0, rect0, w), lists[w];
      OpenedStep(show, k, ps, Piece(tlrb, new_, show[k]));
      assert c[k + |ps|..][0] == p0.lists[w][k..][0];
      hide Holding, OnlyWindow, Piece;
      ok, q' := PutPiece(tlrb, new_, r, q, w, k + |ps|);
      if ok {
        OnlyWindowTrans(p0, rect0, q0, rect1, Now(), rect, w);
        InsertedTail(c, k + |ps|, q');
      }
    }

    // The node that follows p.
    method NextNode(p: int, w: nat, ghost d: nat) returns (r: int)
      requires Holding(Now(), rect) && Before(p, w, d)
      ensures r == if d < |lists[w]| then lists[w][d] else NIL
      ensures d < |lists[w]| ==> 0 <= r < |rect| && rect[r] == Show(w)[d]
    {
      assert Holds(link, heads[w], lists[w], owner, w);
      if p == AT_ROOT {
        r := heads[w];
      } else {
        assert link[lists[w][d - 1]] == After(lists[w], d - 1, NIL);
        r := link[p];
      }
    }

    // The body of the loop in mkrect, without the step to the next node.
    method CutNode(new_: Rect, r: int, p: int, w: nat, ghost d: nat) returns (ok: bool, p': int, ghost d': nat)
      requires Holding(Now(), rect) && Before(p, w, d) && d < |lists[w]| && lists[w][d] == r && w < |broken|
      modifies this
      ensures !ok ==> rul == NIL
      ensures ok ==> Stepped(old(Now()), old(rect), new_, w, d, p', d')
      ensures ok ==> broken == if Overlaps(new_, old(Show(w))[d]) then old(broken)[w := true] else old(broken)
    {
      NotStepped(new_, r, w, d);
      hide WindowRects.Stepped, Overlaps;
      var q;
      p' := p;
      ok, q, d' := BrkRct(new_, r, p, w, d);
      if ok {
        if q == NIL {
          p', d' := r, d + 1;
        } else {
          broken := broken[w := true];
          p' := q;
        }
      }
    }

    lemma NotStepped(new_: Rect, r: int, w: nat, d: nat)
      requires Holding(Now(), rect) && w < |lists| && d < |lists[w]| && lists[w][d] == r
      ensures !Overlaps(new_, Show(w)[d]) ==> Stepped(Now(), rect, new_, w, d, r, d + 1)
    {
      OnlyWindowSelf(Now(), rect, w);
      if !Overlaps(new_, Show(w)[d]) {
        NotBroken(new_, Show(w), d);
      }
    }

    // mkrect has dealt with m rectangles of window w; p is the last node it left behind, r the next one, at position d.
    ghost predicate Passing(p0: Pool, rect0: seq<Rect>, broken0: seq<bool>, new_: Rect, w: nat, m: nat, p: int, r: int,
                            d: nat)
      reads this
    {
      && Holding(p0, rect0) && w < |p0.lists| && |broken0| == |p0.heads|
      && Holding(Now(), rect) && OnlyWindow(p0, rect0, Now(), rect, w)
      && Before(p, w, d) && PassState(new_, ShowOf(p0, rect0, w), m, Show(w), d)
      && r == (if d < |lists[w]| then lists[w][d] else NIL)
      && broken == broken0[w := broken0[w] || Touches(new_, ShowOf(p0, rect0, w)[..m])]
    }

    // One round of the loop in mkrect.
    method PassNode(ghost p0: Pool, ghost rect0: seq<Rect>, ghost broken0: seq<bool>, new_: Rect, w: nat, ghost m: nat,
                    p: int, r: int, ghost d: nat) returns (ok: bool, p': int, r': int, ghost d': nat)
      requires Passing(p0, rect0, broken0, new_, w, m, p, r, d) && r != NIL
      modifies this
      ensures !ok ==> rul == NIL
      ensures ok ==> Holding(p0, rect0) && w < |p0.lists| && m < |ShowOf(p0, rect0, w)|
      ensures ok ==> Passing(p0, rect0, broken0, new_, w, m + 1, p', r', d')
    {
      ghost var q0, rect1, broken1 := Now(), rect, broken;
      PassAt(p0, rect0, broken0, new_, w, m, p, r, d);
      hide WindowRects.Passing, WindowRects.Stepped, MidPass, Sound, Overlaps, Holding, OnlyWindow, ShowOf;
      r' := NIL;
      ok, p', d' := CutNode(new_, r, p, w, d);
      if ok {
        SteppedFacts(q0, rect1, new_, w, d, p', d');
        r' := NextNode(p', w, d');
        PassAdvance(p0, rect0, q0, rect1, broken0, broken1, new_, w, m, d, p', r', d');
      }
    }

    lemma SteppedFacts(q0: Pool, rect1: seq<Rect>, new_: Rect, w: nat, d: nat, p': int, d': nat)
      requires Stepped(q0, rect1, new_, w, d, p', d')
      ensures Holding(q0, rect1) && w < |q0.lists| && d < |ShowOf(q0, rect1, w)|
      ensures Holding(Now(), rect) && Before(p', w, d')
    {
    }

    lemma PassAt(p0: Pool, rect0: seq<Rect>, broken0: seq<bool>, new_: Rect, w: nat, m: nat, p: int, r: int, d: nat)
      requires Passing(p0, rect0, broken0, new_, w, m, p, r, d) && r != NIL
      ensures MidPass(p0, rect0, broken0, Now(), rect, broken, new_, w, m, d)
      ensures Holding(Now(), rect) && Before(p, w, d) && d < |lists[w]| && lists[w][d] == r && w < |broken|
    {
      assert |Show(w)| == |lists[w]|;
      assert Show(w)[d..][0] == ShowOf(p0, rect0, w)[m..][0];
    }

    lemma PassAdvance(p0: Pool, rect0: seq<Rect>, q0: Pool, rect1: seq<Rect>, broken0: seq<bool>, broken1: seq<bool>,
                      new_: Rect, w: nat, m: nat, d: nat, p': int, r': int, d': nat)
      requires MidPass(p0, rect0, broken0, q0, rect1, broken1, new_, w, m, d) && Stepped(q0, rect1, new_, w, d, p', d')
      requires broken == if Overlaps(new_, ShowOf(q0, rect1, w)[d]) then broken1[w := true] else broken1
      requires r' == (if d' < |lists[w]| then lists[w][d'] else NIL)
      ensures m < |ShowOf(p0, rect0, w)|
      ensures Passing(p0, rect0, broken0, new_, w, m + 1, p', r', d')
    {
      hide Sound;
      OnlyWindowTrans(p0, rect0, q0, rect1, Now(), rect, w);
      PassStep(new_, ShowOf(p0, rect0, w), m, ShowOf(q0, rect1, w), d);
      TouchesStep(new_, ShowOf(p0, rect0, w), m);
    }

    lemma PassDone(p0: Pool, rect0: seq<Rect>, broken0: seq<bool>, new_: Rect, w: nat, m: nat, p: int, d: nat)
      requires Passing(p0, rect0, broken0, new_, w, m, p, NIL, d)
      ensures Valid() && OnlyWindow(p0, rect0, Now(), rect, w)
      ensures Holding(p0, rect0) && w < |p0.lists| && w < |broken0|
      ensures Show(w) == CutList(new_, ShowOf(p0, rect0, w))
      ensures broken == broken0[w := broken0[w] || Touches(new_, ShowOf(p0, rect0, w))]
    {
      assert Holds(link, heads[w], lists[w], owner, w);
      assert |Show(w)| == |lists[w]| == d;
      PassStep(new_, ShowOf(p0, rect0, w), m, Show(w), d);
      assert ShowOf(p0, rect0, w)[..m] == ShowOf(p0, rect0, w);
    }

    /** mkrect: one pass over a window's list, cutting it by new_; VF_BROKEN is set if anything was cut. */
    method MkRect(new_: Rect, w: nat) returns (ok: bool)
      requires Valid() && w < |lists|
      modifies this
      ensures !ok ==> rul == NIL
      ensures ok ==> Valid() && OnlyWindow(old(Now()), old(rect), Now(), rect, w)
      ensures ok ==> Show(w) == CutList(new_, old(Show(w)))
      ensures ok ==> broken == old(broken)[w := old(broken)[w] || Touches(new_, old(Show(w)))]
    {
      ok := true;
      ghost var p0, rect0, broken0 := Now(), rect, broken;
      ghost var m: nat, d: nat := 0, 0;
      var p := AT_ROOT;
      var r := NextNode(p, w, 0);
      OnlyWindowSelf(p0, rect0, w);
      PassStart(new_, Show(w));
      TouchesStep(new_, Show(w), 0);
      assert Passing(p0, rect0, broken0, new_, w, m, p, r, d);
      hide WindowRects.Passing;
      while r != NIL
        invariant Passing(p0, rect0, broken0, new_, w, m, p, r, d) && m <= |ShowOf(p0, rect0, w)|
        decreases |ShowOf(p0, rect0, w)| - m
      {
        ok, p, r, d := PassNode(p0, rect0, broken0, new_, w, m, p, r, d);
        if !ok {
          return;
        }
        m := m + 1;
      }
      PassDone(p0, rect0, broken0, new_, w, m, p, d);
    }

    // newrect gives the old list back, if there is one.
    method Dump(w: nat)
      requires Valid() && w < |lists|
      modifies this
      ensures Valid() && OnlyWindow(old(Now()), old(rect), Now(), rect, w)
      ensures Show(w) == [] && broken == old(broken)[w := false]
    {
      assert Holds(link, heads[w], lists[w], owner, w);
      var r0 := heads[w];
      if r0 != NIL {
        SoundDumped(Now(), w);
        ghost var q, c := Dumped(Now(), w), lists[w];
        var r := r0;
        ghost var k := 0;
        while link[r] != NIL
          invariant 0 <= k < |c| && r == c[k]
          decreases |c| - k
        {
          assert link[c[k]] == After(c, k, NIL);
          r, k := link[r], k + 1;
        }
        assert link[c[k]] == After(c, k, NIL);
        assert k == |c| - 1;
        hide Sound, Holds;
        link := link[r := rul];
        rul := r0;
        heads := heads[w := NIL];
        free, lists, owner := c + free, lists[w := []], q.owner;
        assert Now() == q;
      }
      broken := broken[w := false];
    }

    // The last step of newrect: a list of one node with the window's own rectangle.
    method Restart(w: nat, true_: Rect) returns (ok: bool)
      requires Valid() && w < |lists| && Show(w) == []
      modifies this
      ensures !ok ==> rul == NIL
      ensures ok ==> Valid() && OnlyWindow(old(Now()), old(rect), Now(), rect, w)
      ensures ok ==> Show(w) == [true_] && broken == old(broken)
    {
      ok := rul != NIL;
      if !ok {
        return;
      }
      assert |Show(w)| == |lists[w]|;
      ShowTaken(Now(), rect, w, 0, true_);
      assert Holds(link, heads[w], lists[w], owner, w);
      ghost var q := Taken(Now(), w, 0);
      var e := rul;
      hide Sound, Holds, OnlyWindow;
      rul := link[e];
      link := link[e := NIL];
      rect := rect[e := true_];
      heads := heads[w := e];
      free, lists, owner := free[1..], lists[w := Inserted(lists[w], 0, e)], owner[e := w];
      assert Now() == q;
    }

    // What the lists show: the rectangles of every window, and VF_BROKEN.
    ghost function State(): Regions
      requires Valid()
      reads this
    {
      Regions(Shows(), broken)
    }

    // The rectangles on all lists.
    ghost function Shows(): (r: seq<seq<Rect>>)
      requires Holding(Now(), rect)
      reads this
      ensures |r| == |lists| && forall v :: 0 <= v < |lists| ==> r[v] == Show(v)
    {
      seq(|lists|, v requires Holding(Now(), rect) && 0 <= v < |lists| reads this => Show(v))
    }

    method CutWindow(new_: Rect, w: nat) returns (ok: bool)
      requires Valid() && w < |lists|
      modifies this
      ensures !ok ==> rul == NIL
      ensures ok ==>
        Valid() && |lists| == |old(lists)| && |link| == |old(link)| && State() == Cut(old(State()), new_, w)
    {
      ghost var p0, rect0 := Now(), rect;
      ok := MkRect(new_, w);
      if ok {
        OthersShown(p0, rect0, w);
      }
    }

    // The walk of mkrect over the windows that come before position i of the order.
    method CutEarlier(new_: Rect, order: seq<nat>, i: nat) returns (ok: bool)
      requires Valid() && WindowOrder(order, |lists|) && i < |order|
      modifies this
      ensures !ok ==> rul == NIL
      ensures ok ==>
        Valid() && |lists| == |old(lists)| && |link| == |old(link)|
        && State() == CutEach(old(State()), new_, order[..i])
    {
      hide Cut, Holds;
      ok := true;
      var j := 0;
      ghost var st := State();
      while order[j] != order[i]
        invariant 0 <= j <= i && Valid() && |lists| == |st.shows| && |link| == |old(link)|
        invariant State() == CutEach(st, new_, order[..j])
        decreases i - j
      {
        ok := CutWindow(new_, order[j]);
        if !ok {
          return;
        }
        assert order[..j + 1][..j] == order[..j];
        j := j + 1;
      }
    }

    /** newrect for the window at position i of the order. */
    method NewRect(order: seq<nat>, i: nat, trues: seq<Rect>) returns (ok: bool)
      requires Valid() && WindowOrder(order, |lists|) && i < |order| && |trues| == |lists|
      modifies this
      ensures !ok ==> rul == NIL
      ensures ok ==>
        Valid() && |lists| == |old(lists)| && |link| == |old(link)| && State() == Redone(old(State()), order, i, trues)
      ensures ok ==> Nodes(free, lists) == old(Nodes(free, lists))
    {
      NodesConserved(Now());
      var wh := order[i];
      DumpWindow(wh);
      var gr := trues[wh];
      if !(gr.w != 0 && gr.h != 0) {
        NodesConserved(Now());
        return true;
      }
      ok := CutEarlier(gr, order, i);
      if ok {
        CutEachOther(Regions(old(State()).shows[wh := []], old(State()).broken[wh := false]), gr, order[..i], wh);
        ok := RestartWindow(wh, gr);
      }
      if ok {
        NodesConserved(Now());
      }
    }

    method DumpWindow(w: nat)
      requires Valid() && w < |lists|
      modifies this
      ensures Valid() && |lists| == |old(lists)| && |link| == |old(link)|
      ensures State() == Regions(old(State()).shows[w := []], old(State()).broken[w := false])
    {
      ghost var p0, rect0 := Now(), rect;
      Dump(w);
      OthersShown(p0, rect0, w);
    }

    method RestartWindow(w: nat, true_: Rect) returns (ok: bool)
      requires Valid() && w < |lists| && Show(w) == []
      modifies this
      ensures !ok ==> rul == NIL
      ensures ok ==> Valid() && |lists| == |old(lists)| && |link| == |old(link)|
      ensures ok ==> State() == Regions(old(State()).shows[w := [true_]], old(State()).broken)
    {
      ghost var p0, rect0 := Now(), rect;
      ok := Restart(w, true_);
      if ok {
        OthersShown(p0, rect0, w);
      }
    }

    /**
     newrect once for every window, in tree order. It fails only by running out of free nodes; otherwise every window
     holds what the windows after it leave visible of it.
     */
    method RedoAll(order: seq<nat>, trues: seq<Rect>) returns (ok: bool)
      requires Valid() && WindowOrder(order, |lists|) && |trues| == |lists|
      modifies this
      ensures !ok ==> rul == NIL
      ensures ok ==> Valid() && |lists| == |old(lists)| && |link| == |old(link)|
      ensures ok ==> forall a :: 0 <= a < |order| ==> Show(order[a]) == RegionOf(order, trues, a, |order|)
      ensures ok ==>
        forall v :: 0 <= v < |lists| && v !in order ==> Show(v) == old(Shows())[v] && broken[v] == old(broken)[v]
      ensures ok ==> forall a :: 0 <= a < |order| ==> broken[order[a]] == Spoiled(order, trues, a, |order|)
      ensures ok ==> Nodes(free, lists) == old(Nodes(free, lists))
    {
      NodesConserved(Now());
      ok := true;
      var i := 0;
      ghost var st := State();
      while i < |order|
        invariant 0 <= i <= |order| && Valid() && |lists| == |st.shows| && |link| == |old(link)|
        invariant Done(st, State(), order, trues, i)
      {
        ghost var before := State();
        ok := NewRect(order, i, trues);
        if !ok {
          return;
        }
        RedoneDone(st, before, order, trues, i);
        i := i + 1;
      }
      assert order[..i] == order;
      NodesConserved(Now());
    }

    lemma OthersShown(p0: Pool, rect0: seq<Rect>, w: nat)
      requires Holding(p0, rect0) && Holding(Now(), rect) && w < |p0.lists| && OnlyWindow(p0, rect0, Now(), rect, w)
      ensures |lists| == |p0.lists| && |link| == |p0.link|
      ensures forall v :: 0 <= v < |lists| && v != w ==> Show(v) == ShowOf(p0, rect0, v)
    {
      forall v | 0 <= v < |lists| && v != w
        ensures Show(v) == ShowOf(p0, rect0, v)
      {
        ShowElsewhere(p0, rect0, Now(), rect, w, v);
      }
    }
  }

  // The facts about one round of mkrect's loop that the round itself does not touch.
  ghost predicate MidPass(p0: Pool, rect0: seq<Rect>, broken0: seq<bool>, q0: Pool, rect1: seq<Rect>,
                          broken1: seq<bool>,
                          new_: Rect, w: nat, m: nat, d: nat) {
    && Holding(p0, rect0) && Holding(q0, rect1) && w < |p0.lists| && w < |q0.lists| && |broken0| == |p0.heads|
    && OnlyWindow(p0, rect0, q0, rect1, w)
    && m < |ShowOf(p0, rect0, w)| && d < |ShowOf(q0, rect1, w)| && ShowOf(q0, rect1, w)[d] == ShowOf(p0, rect0, w)[m]
    && PassState(new_, ShowOf(p0, rect0, w), m, ShowOf(q0, rect1, w), d)
    && broken1 == broken0[w := broken0[w] || Touches(new_, ShowOf(p0, rect0, w)[..m])]
  }
}
