/** Short runs through several parts: two that build the same list, and some that go wrong. */
module Runs {
  import opened Chains
  import opened Geometry
  import opened RectArena
  import opened RectLists
  import opened Windows
  import opened WindowGeometry
  import opened ZOrder
  import opened LeftLinks
  import opened WindowOrder
  import OrectLists
  import OrectRegions
  import EventBlocks

  // In terms of the rectangles alone.
  lemma SameLists(order: seq<nat>, trues: seq<Rect>, a: nat, ws: map<int, Window>, handle: int, area: Area,
                  above: seq<int>)
    requires OrectRegions.WindowOrder(order, |trues|) && a < |order|
    requires OntopChain(ws, handle, above) && |above| == |order| - a - 1
    requires trues[order[a]] == StartRect(ws[handle], area)
    requires forall j :: 0 <= j < |above| ==> trues[order[a + 1 + j]] == Shadowed(ws[above[j]])
    requires forall j :: a <= j < |order| ==> trues[order[j]].w != 0 && trues[order[j]].h != 0
    ensures
      OrectRegions.RegionOf(order, trues, a, |order|) == CutAll([StartRect(ws[handle], area)], ShadowsOf(ws, above))
  {
    hide CutAll, OrectRegions.RegionOf;
    OrectRegions.SameAsNewer(order, trues, a);
    var later := seq(|above|, j requires 0 <= j < |above| => trues[order[a + 1 + j]]);
    assert later == ShadowsOf(ws, above);
  }

  /**
   The older program and the newer one agree: the list that newrect leaves for a window, after a pass over all of them,
   is the one that genrlist builds before merging, when both see the same rectangles, none of them without a size.
   */
  method BothPrograms(o: OrectLists.WindowRects, order: seq<nat>, trues: seq<Rect>, ghost a: nat,
                      p: RectPool, ws: map<int, Window>, handle: int, area: Area, ghost above: seq<int>)
    returns (ok: bool, ghost c: seq<int>)
    requires o.Valid() && OrectRegions.WindowOrder(order, |o.lists|) && |trues| == |o.lists| && a < |order|
    requires p.Alive() && OntopChain(ws, handle, above) && |above| == |order| - a - 1
    requires trues[order[a]] == StartRect(ws[handle], area)
    requires forall j :: 0 <= j < |above| ==> trues[order[a + 1 + j]] == Shadowed(ws[above[j]])
    requires forall j :: a <= j < |order| ==> trues[order[j]].w != 0 && trues[order[j]].h != 0
    modifies o, p
    ensures !ok ==> o.rul == NIL
    ensures ok ==> o.Valid() && order[a] < |o.lists| && InArena(c, |p.rect|) && o.Show(order[a]) == Rects(p.rect, c)
  {
    hide Trail, CutAll, OrectRegions.RegionOf, Grown, Linked, Counted, Tidy;
    SameLists(order, trues, a, ws, handle, area, above);
    ok := o.RedoAll(order, trues);
    var rlist, all;
    rlist, all, c := p.CutUncovered(ws, handle, area, above, NIL);
  }

  // The desktop and another window are created and opened.
  method TwoOpen(box: Box, kind: Kind, rect: Rect) returns (s: WindowStack)
    requires box.Valid()
    ensures fresh(s) && s.Valid() && NoCircle(s.ws) && s.z == [0, 1] && s.deskwind == 0 && s.ws.Keys == {0, 1}
  {
    hide Stacked, OpenIn, NoCircle, Opened;
    s := new WindowStack(0, box);
    s.Create(0, kind);
    s.Create(1, kind);
    var _ := s.Open(0, rect);
    var _ := s.Open(1, rect);
  }

  /** With both closed, the second window opens on an empty screen with its under link left: the order is spoiled. */
  method OpenedWrong(box: Box, kind: Kind, rect: Rect) returns (s: WindowStack)
    requires box.Valid()
    ensures fresh(s) && s.z == [1] && !s.Valid()
  {
    hide OpenIn, NoCircle, Opened;
    s := TwoOpen(box, kind, rect);
    LinksAt(s.ws, s.z, 1);
    OpenAt(s.ws, s.z, 1);
    hide Stacked;
    var _ := s.Close(1);
    assert s.z == [0] && s.ws[1].under == 0;
    OpenAt(s.ws, s.z, 0);
    var _ := s.Close(0);
    assert s.z == [] && s.ws[1].under == 0;
    var _ := s.Open(1, rect);
  }

  lemma SecondLowest()
    ensures Moved([0, 1], 0, 1) == [1, 0]
  {
    assert Without([0, 1], 0) == [1];
  }

  /** With the desktop topped, lowering the other window follows a NIL link. */
  method LoweredWrong(box: Box, kind: Kind, rect: Rect) returns (s: WindowStack, ok: bool)
    requires box.Valid()
    ensures fresh(s) && s.Ordered() && s.z == [1, 0] && !ok
  {
    hide OpenIn, NoCircle, Stacked, Opened;
    s := TwoOpen(box, kind, rect);
    assert s.z[0] == 0;
    SecondLowest();
    var r := s.SetTop(0);
    assert s.z == [1, 0];
    assert s.z[0] == 1;
    LinksAt(s.ws, s.z, 1);
    r, ok := s.Tobot(1);
  }

  // A third window is created and opened on top, and the second one closed.
  method SecondClosed(box: Box, kind: Kind, rect: Rect) returns (s: WindowStack)
    requires box.Valid()
    ensures fresh(s) && s.Valid() && NoCircle(s.ws) && s.z == [0, 2] && s.ws.Keys == {0, 1, 2}
    ensures s.ws[1].ontop == 2 && !s.ws[1].isOpen
  {
    hide OpenIn, NoCircle, Opened, Closed, MinSize;
    s := TwoOpen(box, kind, rect);
    s.Create(2, kind);
    var _ := s.Open(2, rect);
    LinksAt(s.ws, s.z, 1);
    hide Stacked;
    var _ := s.Close(1);
  }

  // The third one is deleted.
  method ThirdDeleted(box: Box, kind: Kind, rect: Rect) returns (s: WindowStack)
    requires box.Valid()
    ensures fresh(s) && s.Valid() && NoCircle(s.ws) && s.z == [0] && Trail(s.ws, 1, [], 2)
  {
    hide OpenIn, NoCircle, Stacked;
    s := SecondClosed(box, kind, rect);
    OpenAt(s.ws, s.z, 2);
    var _ := s.Delete(2);
    assert s.z == [0];
  }

  /** The chain of the second window still leads there, and a rectangle list asked for then is built through NULL. */
  method ListedWrong(box: Box, kind: Kind, rect: Rect, p: RectPool) returns (s: WindowStack, ok: bool)
    requires box.Valid() && p.Alive()
    modifies p
    ensures fresh(s) && s.Valid() && Trail(s.ws, 1, [], 2) && !ok
  {
    hide OpenIn, NoCircle, Stacked;
    s := ThirdDeleted(box, kind, rect);
    var rlist;
    ghost var c;
    rlist, ok, c := p.GenRList(s.ws, 1, WorkArea, [], 2);
  }

  /**
   Three processes share fifteen event blocks. Two of them wait in ev_multi for six things each; the third, asking for
   as many, is given three blocks and then a NULL one.
   */
  method SixEach() returns (k: EventBlocks.EventKernel, enough: bool)
    ensures fresh(k) && k.Valid() && |k.owner| == 5 * |k.evbits| && k.g.free == [] && !enough
  {
    k := new EventBlocks.EventKernel(15, 3, 7);
    var reqs := seq(6, i requires 0 <= i < 6 => EventBlocks.Request(i + 1, -2));
    assert !EventBlocks.AtOnce(reqs);
    assert forall i, free: seq<int> :: 0 <= i < 6 <= |free| ==> !EventBlocks.Met(reqs, free, [], i);
    var ok, what;
    ok, enough, what := k.EvMulti(0, reqs, []);
    assert enough && !ok;
    ok, enough, what := k.EvMulti(1, reqs, []);
    assert enough && !ok;
    ok, enough, what := k.EvMulti(2, reqs, []);
  }
}
