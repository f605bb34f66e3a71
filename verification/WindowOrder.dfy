/** The stacking order of open windows: wm_open, wm_close, wm_set, totop and tobot of aes/newwmlib.c. */
module ZOrder {
  import opened Chains
  import opened Geometry
  import opened WindowGeometry
  import opened Windows

  // The window below position i.
  function Before(z: seq<int>, i: nat): int
    requires i <= |z|
  {
    if i == 0 then NIL else z[i - 1]
  }

  function Last(z: seq<int>): int { Before(z, |z|) }

  // under and ontop are one mutually inverse list; z runs from the bottom to the top.
  ghost predicate Stacked(ws: map<int, Window>, z: seq<int>) {
    && Distinct(z)
    && (forall i :: 0 <= i < |z| ==> z[i] in ws && z[i] != NIL)
    && (forall i {:trigger ws[z[i]]} :: 0 <= i < |z| ==>
      ws[z[i]].ontop == After(z, i, NIL) && ws[z[i]].under == Before(z, i))
  }

  // z holds exactly the open windows.
  ghost predicate OpenIn(ws: map<int, Window>, z: seq<int>) {
    && (forall i :: 0 <= i < |z| ==> z[i] in ws && ws[z[i]].isOpen)
    && (forall h :: h in ws && ws[h].isOpen ==> h in z)
  }

  lemma LinksAt(ws: map<int, Window>, z: seq<int>, k: nat)
    requires Stacked(ws, z) && k < |z|
    ensures z[k] in ws && ws[z[k]].under == Before(z, k) && ws[z[k]].ontop == After(z, k, NIL)
    ensures z[k] == Last(z) <==> k == |z| - 1
    ensures z[k] == Head(z, NIL) <==> k == 0
  {
  }

  lemma AllIn(ws: map<int, Window>, z: seq<int>)
    requires Stacked(ws, z)
    ensures forall i :: 0 <= i < |z| ==> z[i] in ws
    ensures z != [] ==> Head(z, NIL) in ws && Last(z) in ws && Head(z, NIL) != NIL && Last(z) != NIL
  {
  }

  lemma OpenAt(ws: map<int, Window>, z: seq<int>, h: int)
    requires OpenIn(ws, z)
    ensures h in z <==> h in ws && ws[h].isOpen
  {
    if h in z {
      var i :| 0 <= i < |z| && z[i] == h;
    }
  }

  function SetOntop(ws: map<int, Window>, h: int, x: int): map<int, Window>
    requires h in ws
  {
    ws[h := ws[h].(ontop := x)]
  }

  function SetUnder(ws: map<int, Window>, h: int, x: int): map<int, Window>
    requires h in ws
  {
    ws[h := ws[h].(under := x)]
  }

  // The neighbours of position k linked to each other.
  function Unhooked(ws: map<int, Window>, z: seq<int>, k: nat): map<int, Window>
    requires k < |z| && forall i :: 0 <= i < |z| ==> z[i] in ws
  {
    var ws1 := if k + 1 < |z| then SetUnder(ws, z[k + 1], Before(z, k)) else ws;
    if k > 0 then SetOntop(ws1, z[k - 1], After(z, k, NIL)) else ws1
  }

  // h linked in at position j.
  function Hooked(ws: map<int, Window>, z: seq<int>, j: nat, h: int): map<int, Window>
    requires j <= |z| && h in ws && forall i :: 0 <= i < |z| ==> z[i] in ws
  {
    var ws1 := SetUnder(SetOntop(ws, h, if j < |z| then z[j] else NIL), h, Before(z, j));
    var ws2 := if j < |z| then SetUnder(ws1, z[j], h) else ws1;
    if j > 0 then SetOntop(ws2, z[j - 1], h) else ws2
  }

  /** Linking the neighbours to each other takes a window out of the stack. */
  lemma UnhookedStacked(ws: map<int, Window>, z: seq<int>, k: nat)
    requires Stacked(ws, z) && k < |z|
    ensures Stacked(Unhooked(ws, z, k), Without(z, k))
  {
    var d, ws' := Without(z, k), Unhooked(ws, z, k);
    WithoutDistinct(z, k);
    forall i | 0 <= i < |d|
      ensures d[i] in ws' && d[i] != NIL && ws'[d[i]].ontop == After(d, i, NIL) && ws'[d[i]].under == Before(d, i)
    {
      WithoutAt(z, k, i);
      var m := if i < k then i else i + 1;
      assert ws[z[m]].ontop == After(z, m, NIL) && ws[z[m]].under == Before(z, m);
      assert m != k - 1 && m != k + 1 ==> ws'[d[i]] == ws[z[m]];
    }
  }

  /** Linking a window in at position j. */
  lemma HookedStacked(ws: map<int, Window>, z: seq<int>, j: nat, h: int)
    requires Stacked(ws, z) && j <= |z| && h in ws && h != NIL && Apart(z, [h])
    ensures Stacked(Hooked(ws, z, j, h), Inserted(z, j, h))
  {
    var d, ws' := Inserted(z, j, h), Hooked(ws, z, j, h);
    assert forall i :: 0 <= i < |z| ==> z[i] != [h][0];
    forall i | 0 <= i < |d|
      ensures d[i] in ws' && d[i] != NIL && ws'[d[i]].ontop == After(d, i, NIL) && ws'[d[i]].under == Before(d, i)
    {
      InsertedAt(z, j, h, i);
      if i != j {
        var m := if i < j then i else i - 1;
        assert ws[z[m]].ontop == After(z, m, NIL) && ws[z[m]].under == Before(z, m);
      }
    }
    forall i, k | 0 <= i < k < |d|
      ensures d[i] != d[k]
    {
      InsertedAt(z, j, h, i);
      InsertedAt(z, j, h, k);
    }
  }

  /** Fields other than the links do not matter to the order. */
  lemma StackedElsewhere(ws: map<int, Window>, ws': map<int, Window>, z: seq<int>)
    requires Stacked(ws, z) && ws.Keys <= ws'.Keys
    requires forall i :: 0 <= i < |z| ==> ws'[z[i]].ontop == ws[z[i]].ontop && ws'[z[i]].under == ws[z[i]].under
    ensures Stacked(ws', z)
  {
  }

  /** The order of the stack is determined by the links and the top window. */
  lemma {:induction false} OrderUnique(ws: map<int, Window>, z: seq<int>, y: seq<int>)
    requires Stacked(ws, z) && Stacked(ws, y) && Last(z) == Last(y)
    ensures z == y
    decreases |z|
  {
    if z != [] && y != [] {
      var n, m := |z| - 1, |y| - 1;
      LinksAt(ws, z, n);
      LinksAt(ws, y, m);
      AllIn(ws, z);
      AllIn(ws, y);
      hide Stacked;
      UnhookedStacked(ws, z, n);
      UnhookedStacked(ws, y, m);
      assert Without(z, n) == z[..n] && Without(y, m) == y[..m];
      assert Unhooked(ws, z, n) == Unhooked(ws, y, m);
      hide Unhooked;
      assert z == z[..n] + [Last(z)] && y == y[..m] + [Last(y)];
      OrderUnique(Unhooked(ws, z, n), z[..n], y[..m]);
    }
  }

  /** The windows above position i are what the ontop links lead to from there: the ones that hide parts of it. */
  lemma AboveIsOntopChain(ws: map<int, Window>, z: seq<int>, i: nat)
    requires Stacked(ws, z) && i < |z|
    ensures OntopChain(ws, z[i], z[i + 1..])
  {
    var hs := z[i + 1..];
    assert ws[z[i]].ontop == After(z, i, NIL);
    forall j | 0 <= j < |hs|
      ensures hs[j] in ws && hs[j] != NIL && ws[hs[j]].ontop == After(hs, j, NIL)
    {
      assert hs[j] == z[i + 1 + j];
      assert ws[z[i + 1 + j]].ontop == After(z, i + 1 + j, NIL);
    }
  }

  ghost function IndexOf(z: seq<int>, h: int): (k: nat)
    requires h in z
    ensures k < |z| && z[k] == h
  {
    var k: nat :| k < |z| && z[k] == h;
    k
  }

  // z is the order of the open windows, and bot is the lowest one.
  ghost predicate InOrder(ws: map<int, Window>, z: seq<int>, bot: int) {
    Stacked(ws, z) && OpenIn(ws, z) && Head(z, NIL) == bot
  }

  // Taking position k out and putting it back at position j.
  function Moved(z: seq<int>, k: nat, j: nat): seq<int>
    requires k < |z| && j < |z|
  {
    Inserted(Without(z, k), j, z[k])
  }

  /** A move changes the place of one window; any two others stay in their order. */
  lemma MovedKeepsOrder(z: seq<int>, k: nat, j: nat, a: nat, b: nat)
    requires k < |z| && j < |z| && a < b < |z| && a != k && b != k
    ensures |Moved(z, k, j)| == |z| && Moved(z, k, j)[j] == z[k]
    ensures exists a', b' :: 0 <= a' < b' < |z| && Moved(z, k, j)[a'] == z[a] && Moved(z, k, j)[b'] == z[b]
  {
    var d := Without(z, k);
    var a1, b1 := if a < k then a else a - 1, if b < k then b else b - 1;
    var a2, b2 := if a1 < j then a1 else a1 + 1, if b1 < j then b1 else b1 + 1;
    assert d[a1] == z[a] && d[b1] == z[b];
    InsertedAt(d, j, z[k], a2);
    InsertedAt(d, j, z[k], b2);
    InsertedAt(d, j, z[k], j);
    assert Moved(z, k, j)[a2] == z[a] && Moved(z, k, j)[b2] == z[b];
  }

  lemma NotIn(z: seq<int>, k: nat)
    requires Distinct(z) && k < |z|
    ensures Apart(Without(z, k), [z[k]])
  {
    forall i | 0 <= i < |Without(z, k)|
      ensures Without(z, k)[i] != z[k]
    {
      WithoutAt(z, k, i);
    }
  }

  lemma MovedMembers(z: seq<int>, k: nat, j: nat)
    requires k < |z| && j < |z|
    ensures forall h :: h in Moved(z, k, j) <==> h in z
  {
    var d := Without(z, k);
    forall h
      ensures h in Moved(z, k, j) <==> h in z
    {
      assert z == z[..k] + [z[k]] + z[k + 1..];
      assert d == d[..j] + d[j..];
      assert h in d <==> h in d[..j] || h in d[j..];
      assert h in z <==> h in z[..k] || h == z[k] || h in z[k + 1..];
    }
  }

  // w1 is w but for the links, and the same to the links unless it is open.
  predicate SameWindow(w: Window, w1: Window) {
    w1 == w.(ontop := w1.ontop, under := w1.under) && (w.isOpen || w1 == w)
  }

  // ws1 is ws0 with w stored under a handle, and possibly other links of open windows.
  ghost predicate SameBut(ws0: map<int, Window>, ws1: map<int, Window>, handle: int, w: Window) {
    && handle in ws0 && ws1.Keys == ws0.Keys
    && (forall h :: h in ws1 && h != handle ==> SameWindow(ws0[h], ws1[h]))
    && SameWindow(w, ws1[handle])
  }

  // Every work area is the one wm_calc gives.
  ghost predicate WorkOk(ws: map<int, Window>, box: Box) {
    forall h :: h in ws && !MoverOnly(ws[h].kind) ==> WorkMatches(ws[h], box)
  }

  lemma WorkKept(ws0: map<int, Window>, ws1: map<int, Window>, handle: int, w: Window, box: Box)
    requires WorkOk(ws0, box) && SameBut(ws0, ws1, handle, w) && (!MoverOnly(w.kind) ==> WorkMatches(w, box))
    ensures WorkOk(ws1, box)
  {
    hide WorkOf;
  }

  lemma UnhookedSame(ws: map<int, Window>, z: seq<int>, k: nat)
    requires Stacked(ws, z) && k < |z| && forall i :: 0 <= i < |z| && i != k ==> ws[z[i]].isOpen
    ensures SameBut(ws, Unhooked(ws, z, k), z[k], ws[z[k]])
  {
  }

  lemma HookedSame(ws: map<int, Window>, z: seq<int>, j: nat, h: int)
    requires Stacked(ws, z) && j <= |z| && h in ws && ws[h].isOpen && forall i :: 0 <= i < |z| ==> ws[z[i]].isOpen
    ensures SameBut(ws, Hooked(ws, z, j, h), h, ws[h])
  {
  }

  /** Putting a window on top and marking it open. */
  lemma OpenStep(ws: map<int, Window>, z: seq<int>, h: int, w: Window)
    requires Stacked(ws, z) && OpenIn(ws, z) && h in ws && h != NIL && !ws[h].isOpen && w.isOpen
    ensures Stacked(ws[h := w], z) && (z != [] ==> Last(z) != h)
    ensures
      var ws' := Hooked(ws[h := w], z, |z|, h);
      Stacked(ws', z + [h]) && OpenIn(ws', z + [h]) && SameBut(ws, ws', h, w)
  {
    var ws1 := ws[h := w];
    assert Apart(z, [h]);
    assert Inserted(z, |z|, h) == z + [h];
    StackedElsewhere(ws, ws1, z);
    HookedStacked(ws1, z, |z|, h);
    HookedSame(ws1, z, |z|, h);
  }

  /** Taking a window out and marking it closed. */
  lemma CloseStep(ws: map<int, Window>, z: seq<int>, k: nat, w: Window)
    requires Stacked(ws, z) && OpenIn(ws, z) && k < |z| && !w.isOpen
    requires w.ontop == ws[z[k]].ontop && w.under == ws[z[k]].under
    ensures Stacked(ws[z[k] := w], z)
    ensures
      var ws' := Unhooked(ws[z[k] := w], z, k);
      Stacked(ws', Without(z, k)) && OpenIn(ws', Without(z, k)) && SameBut(ws, ws', z[k], w)
  {
    var ws1 := ws[z[k] := w];
    StackedElsewhere(ws, ws1, z);
    UnhookedStacked(ws1, z, k);
    UnhookedSame(ws1, z, k);
    var ws', d := Unhooked(ws1, z, k), Without(z, k);
    forall h | h in ws' && ws'[h].isOpen
      ensures h in d
    {
      WithoutMember(z, k, h);
    }
    forall i | 0 <= i < |d|
      ensures d[i] in ws' && ws'[d[i]].isOpen
    {
      WithoutMember(z, k, d[i]);
    }
  }

  lemma SameTwice(ws0: map<int, Window>, ws1: map<int, Window>, ws2: map<int, Window>, h: int)
    requires h in ws0 && SameBut(ws0, ws1, h, ws0[h]) && h in ws1 && SameBut(ws1, ws2, h, ws1[h])
    ensures SameBut(ws0, ws2, h, ws0[h])
  {
  }

  lemma OpenElsewhere(ws0: map<int, Window>, ws1: map<int, Window>, z: seq<int>)
    requires OpenIn(ws0, z) && ws0.Keys == ws1.Keys && forall h :: h in ws0 ==> ws1[h].isOpen == ws0[h].isOpen
    ensures OpenIn(ws1, z)
  {
    forall i | 0 <= i < |z|
      ensures z[i] in ws1 && ws1[z[i]].isOpen
    {
      var h := z[i];
      assert h in ws0.Keys;
      assert ws1[h].isOpen == ws0[h].isOpen;
    }
    forall h | h in ws1 && ws1[h].isOpen
      ensures h in z
    {
      assert h in ws0.Keys;
    }
  }

  lemma OpenKept(ws0: map<int, Window>, ws1: map<int, Window>, z: seq<int>, y: seq<int>, h: int)
    requires h in ws0 && SameBut(ws0, ws1, h, ws0[h]) && OpenIn(ws0, z) && forall e :: e in y <==> e in z
    ensures OpenIn(ws1, y)
  {
    forall i | 0 <= i < |y|
      ensures y[i] in ws1 && ws1[y[i]].isOpen
    {
      var e := y[i];
      assert e in z;
      var j :| 0 <= j < |z| && z[j] == e;
      assert ws0[z[j]].isOpen;
    }
  }

  lemma OpenMembers(ws: map<int, Window>, z: seq<int>)
    requires OpenIn(ws, z)
    ensures forall i :: 0 <= i < |z| ==> z[i] in ws && ws[z[i]].isOpen
  {
  }

  lemma RestOpen(ws: map<int, Window>, ws1: map<int, Window>, z: seq<int>, k: nat)
    requires k < |z| && forall i :: 0 <= i < |z| ==> z[i] in ws && ws[z[i]].isOpen
    requires SameBut(ws, ws1, z[k], ws[z[k]])
    ensures z[k] in ws1 && ws1[z[k]].isOpen
    ensures forall i :: 0 <= i < |z| - 1 ==> Without(z, k)[i] in ws1 && ws1[Without(z, k)[i]].isOpen
  {
    forall i | 0 <= i < |z| - 1
      ensures Without(z, k)[i] in ws1 && ws1[Without(z, k)[i]].isOpen
    {
      WithoutAt(z, k, i);
    }
  }

  /** Moving a window from position k to position j. */
  lemma MoveStep(ws: map<int, Window>, z: seq<int>, k: nat, j: nat)
    requires Stacked(ws, z) && OpenIn(ws, z) && k < |z| && j < |z|
    ensures Stacked(Unhooked(ws, z, k), Without(z, k))
    ensures
      var ws' := Hooked(Unhooked(ws, z, k), Without(z, k), j, z[k]);
      Stacked(ws', Moved(z, k, j)) && OpenIn(ws', Moved(z, k, j)) && SameBut(ws, ws', z[k], ws[z[k]])
  {
    var ws1, d := Unhooked(ws, z, k), Without(z, k);
    NotIn(z, k);
    AllIn(ws, z);
    OpenMembers(ws, z);
    hide OpenIn, SameBut;
    UnhookedStacked(ws, z, k);
    UnhookedSame(ws, z, k);
    RestOpen(ws, ws1, z, k);
    HookedStacked(ws1, d, j, z[k]);
    HookedSame(ws1, d, j, z[k]);
    MovedMembers(z, k, j);
    var ws', m := Hooked(ws1, d, j, z[k]), Moved(z, k, j);
    hide Stacked, Moved, Unhooked, Hooked;
    SameTwice(ws, ws1, ws', z[k]);
    OpenKept(ws, ws', z, m, z[k]);
  }
}

module WindowOrder {
  import opened Chains
  import opened Geometry
  import opened Windows
  import opened WindowGeometry
  import opened ZOrder
  import opened LeftLinks

  // WMOPEN, WMCLOSE or WMSET
  datatype Caller = WmOpen | WmClose | WmSet

  class WindowStack {
    var ws: map<int, Window>  // the windows, by handle
    var glWtop: int
    var botw: int
    const deskwind: int
    const box: Box
    ghost var z: seq<int>     // the open windows from the bottom to the top

    constructor (desk: int, b: Box)
      requires b.Valid()
      ensures deskwind == desk && box == b && ws == map[] && z == [] && Valid() && NoCircle(ws)
    {
      assert Ages(map[], map[], 0);
      ws, glWtop, botw, z := map[], NIL, NIL, [];
      deskwind, box := desk, b;
    }

    // z is the order of the open windows.
    ghost predicate Ordered()
      reads this
    {
      box.Valid() && NIL !in ws && Stacked(ws, z) && OpenIn(ws, z) && glWtop == Last(z)
    }

    ghost predicate Valid()
      reads this
    {
      Ordered() && botw == Head(z, NIL)
    }

    // The desktop window is open, below all others.
    ghost predicate DeskBelow()
      reads this
    {
      z != [] && z[0] == deskwind
    }

    // The position of an open window in the order.
    ghost function Position(h: int): (k: nat)
      requires h in z
      reads this
      ensures k < |z| && z[k] == h
    {
      IndexOf(z, h)
    }

    /**
     Writes the links that put a window on top. Called by wm_close, it only cuts the link to the closed window; called
     by wm_set, it first links the neighbours of the window to each other.
     */
    method Totop(handle: int, caller: Caller) returns (r: bool)
      requires NIL !in ws
      requires handle in ws && (caller == WmSet ==> ws[handle].isOpen) ==> CanTop(ws, glWtop, handle, caller)
      modifies this`ws, this`glWtop, this`botw
      ensures r == (handle in old(ws) && !(caller == WmSet && !old(ws)[handle].isOpen))
      ensures !r ==> ws == old(ws) && glWtop == old(glWtop) && botw == old(botw)
      ensures r ==> glWtop == handle && botw == if old(glWtop) == NIL then handle else old(botw)
      ensures ws.Keys == old(ws).Keys
      ensures r ==> ws == Topped(old(ws), old(glWtop), handle, caller)
    {
      if handle !in ws || (caller == WmSet && !ws[handle].isOpen) {
        return false;
      }
      if glWtop == NIL {
        botw := handle;
      } else if caller != WmClose {
        if caller == WmSet {
          var on := ws[handle].ontop;
          ws := SetUnder(ws, on, ws[handle].under);
          var un := ws[handle].under;
          if un != NIL {
            ws := SetOntop(ws, un, ws[handle].ontop);
          }
        }
        ws := SetOntop(ws, glWtop, handle);
        ws := SetUnder(ws, handle, glWtop);
      }
      ws := SetOntop(ws, handle, NIL);
      glWtop := handle;
      r := true;
    }

    /** wm_create, as far as the order goes: a closed window under a new handle. */
    method Create(handle: int, kind: Kind)
      requires Valid() && handle !in ws && handle >= 0
      modifies this`ws
      ensures Valid() && ws == old(ws)[handle := FreshWindow(kind)] && !ws[handle].isOpen && ws[handle].kind == kind
      ensures ws[handle].ontop == ws[handle].under == NIL
      ensures ws[handle].curr == ws[handle].prev == ws[handle].work == Rect(0, 0, 0, 0)
      ensures old(DeskBelow()) ==> DeskBelow()
      ensures old(WorkOk(ws, box)) ==> WorkOk(ws, box)
      ensures old(NoCircle(ws)) ==> NoCircle(ws)
    {
      hide Stacked, OpenIn, WorkOk, NoCircle;
      CreatedStacked(ws, z, handle, kind, box);
      ws := ws[handle := FreshWindow(kind)];
    }

    /** wm_delete: the window is closed if it is open, and then gone. */
    method Delete(handle: int) returns (r: bool)
      requires Valid()
      modifies this
      ensures Valid() && r == (handle in old(ws)) && ws.Keys == old(ws).Keys - {handle}
      ensures z == if handle in old(z) then Without(old(z), old(Position(handle))) else old(z)
      ensures forall h :: h in ws ==> SameWindow(old(ws)[h], ws[h])
      ensures old(DeskBelow()) && handle != deskwind ==> DeskBelow()
      ensures old(WorkOk(ws, box)) ==> WorkOk(ws, box)
      ensures old(NoCircle(ws)) ==> NoCircle(ws)
    {
      hide Stacked, OpenIn, SameBut, WorkOk, NoCircle, SameWindow;
      r := handle in ws;
      OpenAt(ws, z, handle);
      ghost var ws0 := ws;
      SameSelf(ws0);
      if r {
        if ws[handle].isOpen {
          var _ := Close(handle);
          SameAt(ws0, ws, handle, Closed(ws0[handle]));
          SameOthers(ws0, ws, handle, Closed(ws0[handle]));
        }
        GoneStacked(ws, z, handle, box);
        ws := ws - {handle};
      }
    }

    /**
     Opens a window on top of the others, in at least its minimum size. The only way to spoil the order is to open it
     on an empty screen while its under link is left from an earlier time.
     */
    method Open(handle: int, rect: Rect) returns (r: bool)
      requires Valid()
      modifies this
      ensures r == (handle in old(ws) && !old(ws)[handle].isOpen)
      ensures !r ==> ws == old(ws) && z == old(z) && Valid()
      ensures r ==> z == old(z) + [handle] && glWtop == handle
      ensures r ==> (Valid() <==> old(z) != [] || old(ws)[handle].under == NIL)
      ensures old(DeskBelow()) ==> Valid() && DeskBelow()
      ensures r ==> SameBut(old(ws), ws, handle, Opened(old(ws)[handle], box, rect))
      ensures r ==>
        var w, (minW, minH) := ws[handle], MinSize(old(ws)[handle].kind, box);
        && w.isOpen && w.kind == old(ws)[handle].kind && w.prev == w.curr
        && w.curr == Rect(rect.x, rect.y, Max(rect.w, minW), Max(rect.h, minH))
      ensures old(WorkOk(ws, box)) ==> WorkOk(ws, box)
      ensures old(NoCircle(ws)) ==> NoCircle(ws)
      ensures r && !MoverOnly(ws[handle].kind) && old(WorkOk(ws, box)) ==>
        ws[handle].work.w >= 0 && ws[handle].work.h >= 0
    {
      if handle !in ws || ws[handle].isOpen {
        return false;
      }
      hide Stacked, OpenIn, SameBut, WorkOk, WorkMatches, MoverOnly, Topped, CanTop, Last, Head, NoCircle;
      ghost var ws0 := ws;
      OpenAt(ws, z, handle);
      var w' := NewlyOpened(ws[handle], box, rect);
      OpenWork(ws[handle], box, rect);
      OpenedRect(ws[handle], box, rect);
      OpenedOrder(ws, z, handle, w', box);
      hide Opened;
      ws := ws[handle := w'];
      r := Totop(handle, WmOpen);
      z := z + [handle];
      SameAt(ws0, ws, handle, w');
      NoCircleKept(ws0, ws, handle, w');
      if WorkOk(ws0, box) {
        WorkHere(ws0, handle, box);
      }
    }

    /** Closes a window; the others keep their order. */
    method Close(handle: int) returns (r: bool)
      requires Valid()
      modifies this
      ensures Valid()
      ensures r == (handle in old(z))
      ensures !r ==> ws == old(ws) && z == old(z)
      ensures r ==> z == Without(old(z), old(Position(handle)))
      ensures r ==> SameBut(old(ws), ws, handle, Closed(old(ws)[handle]))
      ensures r ==>
        var w := ws[handle];
        && !w.isOpen && w.kind == old(ws)[handle].kind && w.prev == old(ws)[handle].curr
        && w.curr == w.work == Rect(0, 0, 0, 0) && w.ontop == old(ws)[handle].ontop && w.under == old(ws)[handle].under
      ensures old(DeskBelow()) && handle != deskwind ==> DeskBelow()
      ensures old(WorkOk(ws, box)) ==> WorkOk(ws, box)
      ensures old(NoCircle(ws)) ==> NoCircle(ws)
    {
      hide Stacked, OpenIn, SameBut, WorkOk, Unhooked, Closed, NoCircle;
      OpenAt(ws, z, handle);
      if handle !in ws || !ws[handle].isOpen {
        return false;
      }
      ghost var k := Position(handle);
      ghost var ws0, w' := ws, Closed(ws[handle]);
      var wp := ClosedDown(ws[handle]);
      LinksAt(ws, z, k);
      ClosedLinks(ws[handle]);
      ws := ws[handle := wp];
      CloseStep(ws0, z, k, w');
      AllIn(ws, z);
      NoCircleClosed(ws0, z, k, w', Unhooked(ws, z, k));
      Leave(handle, k);
      WorkStep(ws0, handle, w', ws, box);
      SameAt(ws0, ws, handle, w');
      r := true;
    }

    // wm_close, the links: the window at position k leaves the order.
    method Leave(handle: int, ghost k: nat)
      requires Stacked(ws, z) && NIL !in ws && k < |z| && z[k] == handle
      requires glWtop == Last(z) && botw == Head(z, NIL)
      modifies this
      ensures z == Without(old(z), k) && ws == Unhooked(old(ws), old(z), k)
      ensures glWtop == Last(z) && botw == Head(z, NIL)
    {
      hide Stacked, Topped, CanTop;
      LinksAt(ws, z, k);
      AllIn(ws, z);
      if handle == glWtop {
        glWtop := ws[handle].under;
        if glWtop != NIL {
          ToppedClose(ws, z);
          assert Without(z, k) == z[..k];
          var _ := Totop(glWtop, WmClose);
        } else {
          assert k == 0;
          botw := NIL;
        }
      } else if handle == botw {
        botw := ws[handle].ontop;
        ws := SetUnder(ws, botw, NIL);
      } else {
        ws := SetOntop(ws, ws[handle].under, ws[handle].ontop);
        ws := SetUnder(ws, ws[handle].ontop, ws[handle].under);
      }
      z := Without(z, k);
    }

    /**
     WF_TOP: moves a window to the front. Topping the window that botw names leaves botw naming it; the order itself
     is right even then.
     */
    method SetTop(handle: int) returns (r: bool)
      requires Valid()
      modifies this
      ensures r ==> handle in old(ws)
      ensures r <==> handle in old(z)
      ensures !r ==> ws == old(ws) && z == old(z)
      ensures r ==> z == Moved(old(z), old(Position(handle)), |old(z)| - 1)
      ensures r ==> SameBut(old(ws), ws, handle, old(ws)[handle])
      ensures Ordered()
      ensures Valid() <==> !(r && handle == old(botw) && |old(z)| > 1)
      ensures old(DeskBelow()) && handle != deskwind ==> Valid() && DeskBelow()
      ensures old(WorkOk(ws, box)) ==> WorkOk(ws, box)
      ensures old(NoCircle(ws)) ==> NoCircle(ws)
    {
      hide Stacked, OpenIn, SameBut, WorkOk, Topped, CanTop, Moved, NoCircle;
      OpenAt(ws, z, handle);
      if handle !in ws {
        return false;
      }
      r := true;
      if handle != glWtop {
        if ws[handle].isOpen {
          ghost var k := Position(handle);
          LinksAt(ws, z, k);
          ToppedOrder(ws, z, k, box);
          r := Totop(handle, WmSet);
          z := Moved(z, k, |z| - 1);
        } else {
          r := Totop(handle, WmSet);
        }
      } else {
        AllIn(ws, z);
        LinksAt(ws, z, Position(handle));
        MovedNowhere(z);
        OnlyLinks(ws, handle, ws[handle], ws);
      }
    }

    /**
     WF_BOTTOM: moves a window to just above the desktop, wherever that is. The source follows a NIL link or one to a
     window that is gone (ok is false) if the desktop is gone or on top, if its link is left from the time it was open
     and so is the window it leads to, or if the window asked for is the lowest one. With the desktop at the bottom this
     is the desktop itself.
     */
    method Tobot(handle: int) returns (r: bool, ok: bool)
      requires Ordered()
      modifies this`ws, this`glWtop, this`z
      ensures r <==> handle in old(z)
      ensures ok <==> !r || CanLower(old(ws), old(glWtop), deskwind, handle)
      ensures !r || (ok && old(ws)[deskwind].ontop == handle) ==>
        ws == old(ws) && z == old(z) && glWtop == old(glWtop)
      ensures r && ok && old(ws)[deskwind].ontop != handle ==>
        Lowered(old(ws), old(z), old(glWtop), old(Position(handle)))
      ensures !ok ==> handle in old(ws)
      ensures !ok ==> z == old(z) && glWtop == old(glWtop) && ws == CutBefore(old(ws), old(glWtop), deskwind, handle)
      ensures !ok && ws != old(ws) ==> !Stacked(ws, z)
      ensures old(Valid()) && ok ==>
        (Valid() <==> !r || old(ws)[deskwind].ontop == handle || (deskwind in old(z) && handle != deskwind))
      ensures old(DeskBelow()) ==> (ok <==> handle != deskwind) && (ok ==> Ordered() && DeskBelow())
      ensures old(DeskBelow()) && ok && r ==>
        z == Moved(old(z), old(Position(handle)), 1) && SameBut(old(ws), ws, handle, old(ws)[handle])
      ensures old(WorkOk(ws, box)) ==> WorkOk(ws, box)
      ensures old(NoCircle(ws)) ==> NoCircle(ws)
    {
      hide Stacked, OpenIn, SameBut, WorkOk, NoCircle, Botted, Moved, LowPlace;
      OpenAt(ws, z, handle);
      r, ok := false, true;
      if handle in ws && ws[handle].isOpen {
        r := true;
        ghost var k := Position(handle);
        LowNeighbours(ws, z, deskwind, k);
        if DeskBelow() {
          LowCases(ws, z, deskwind, k);
          OnlyLinks(ws, handle, ws[handle], ws);
        }
        if deskwind !in ws || ws[deskwind].ontop !in ws {
          return true, false;
        }
        if ws[deskwind].ontop != handle {
          ok := Lower(handle, ws[deskwind].ontop, k);
          assert ok && Valid() ==> InOrder(ws, z, botw);
        }
      }
    }

    // The state after tobot's link writes for the window at position k.
    ghost predicate Lowered(ws0: map<int, Window>, z0: seq<int>, top0: int, k: nat)
      requires k < |z0|
      reads this
    {
      var handle := z0[k];
      && CanBot(ws0, top0, deskwind, handle) && ws == Botted(ws0, top0, deskwind, handle)
      && (if Settles(ws0, z0, deskwind, handle) then
            LowPlace(z0, deskwind, k) < |z0| && Ordered() && z == Moved(z0, k, LowPlace(z0, deskwind, k))
          else forall z' :: !InOrder(ws, z', z0[0]))
      && (deskwind in z0 && handle != deskwind ==> SameBut(ws0, ws, handle, ws0[handle]))
    }

    // The second half of tobot; on is the window next to the desktop.
    method Lower(handle: int, on: int, ghost k: nat) returns (ok: bool)
      requires Ordered() && k < |z| && z[k] == handle
      requires deskwind in ws && on in ws && ws[deskwind].ontop == on != handle
      modifies this`ws, this`glWtop, this`z
      ensures ok <==> k > 0
      ensures ok ==> Lowered(old(ws), old(z), old(glWtop), k) && z != []
      ensures ok && Settles(old(ws), old(z), deskwind, handle) ==>
        z[0] == if deskwind in old(z) then old(z)[0] else handle
      ensures !ok ==> handle in old(ws)
      ensures !ok ==> z == old(z) && glWtop == old(glWtop) && ws == CutBefore(old(ws), old(glWtop), deskwind, handle)
      ensures !ok && ws != old(ws) ==> !Stacked(ws, z)
      ensures old(WorkOk(ws, box)) ==> WorkOk(ws, box)
      ensures old(NoCircle(ws)) ==> NoCircle(ws)
    {
      hide Stacked, OpenIn, SameBut, WorkOk, NoCircle, Moved, LowPlace, Settles, InOrder;
      LowNeighbours(ws, z, deskwind, k);
      var un := ws[handle].under;
      if un == NIL {
        if handle != glWtop {
          UnderCut(ws, z, box);
          ws := SetUnder(ws, ws[handle].ontop, un);
        }
        return false;
      }
      OpenMembers(ws, z);
      ghost var z' := LowOrder(ws, z, deskwind, k);
      LoweredOrder(ws, z, deskwind, k);
      BottedRest(ws, glWtop, deskwind, handle, box);
      if handle == glWtop {
        glWtop := un;
      } else {
        ws := SetUnder(ws, ws[handle].ontop, ws[handle].under);
      }
      ws := SetOntop(ws, un, ws[handle].ontop);
      ws := SetUnder(ws, handle, ws[on].under);
      ws := SetOntop(ws, handle, ws[deskwind].ontop);
      ws := SetUnder(ws, on, handle);
      ws := SetOntop(ws, deskwind, handle);
      z := z';
      ok := true;
    }

    /** WF_CURRXYWH: the window is kept below the menu line; the order stays as it is. */
    method SetCurr(handle: int, rect: Rect) returns (r: bool)
      requires Valid()
      modifies this`ws
      ensures Valid() && r == (handle in old(ws))
      ensures !r ==> ws == old(ws)
      ensures r ==> ws == old(ws)[handle := Adjusted(old(ws)[handle], box, rect.(y := Max(rect.y, box.h)))]
      ensures r ==> ws[handle].curr.y >= box.h && ws[handle].prev == old(ws)[handle].curr
      ensures old(WorkOk(ws, box)) ==> WorkOk(ws, box)
      ensures old(NoCircle(ws)) ==> NoCircle(ws)
    {
      hide Stacked, OpenIn, WorkOk, Adjusted, NoCircle;
      if handle !in ws {
        return false;
      }
      var rect' := rect;
      if rect'.y < box.h {
        rect' := rect'.(y := box.h);
      }
      AdjustedCurr(ws[handle], box, rect');
      assert rect' == rect.(y := Max(rect.y, box.h));
      CurrStep(ws, z, handle, box, rect');
      var wp := WAdjust(ws[handle], box, rect');
      ws := ws[handle := wp];
      r := true;
    }

    /** wm_find: the topmost open window at a point, edges included. */
    method Find(mx: int, my: int) returns (h: int)
      requires Valid()
      ensures h == NIL <==> forall i :: 0 <= i < |z| ==> !Under(ws, z[i], mx, my)
      ensures h != NIL ==> h in z && Under(ws, h, mx, my)
      ensures h != NIL ==> forall i :: Position(h) < i < |z| ==> !Under(ws, z[i], mx, my)
    {
      hide Stacked, OpenIn;
      AllIn(ws, z);
      h := glWtop;
      ghost var k: nat := |z|;
      while h in ws
        invariant k <= |z| && h == Before(z, k)
        invariant forall i :: k <= i < |z| ==> !Under(ws, z[i], mx, my)
        decreases k
      {
        LinksAt(ws, z, k - 1);
        if
          && mx >= ws[h].curr.x && mx <= ws[h].curr.x + ws[h].curr.w
          && my >= ws[h].curr.y && my <= ws[h].curr.y + ws[h].curr.h
        {
          DistinctAt(ws, z, k - 1, Position(h));
          return;
        }
        h := ws[h].under;
        k := k - 1;
      }
      h := NIL;
    }
  }

  // The links that totop follows lead to windows.
  predicate CanTop(ws: map<int, Window>, top: int, handle: int, caller: Caller) {
    && handle in ws && NIL !in ws
    && (top != NIL && caller != WmClose ==> top in ws)
    && (top != NIL && caller == WmSet ==>
      ws[handle].ontop in ws && (ws[handle].under != NIL ==> ws[handle].under in ws))
  }

  // The windows after totop's link writes.
  function Topped(ws: map<int, Window>, top: int, handle: int, caller: Caller): map<int, Window>
    requires CanTop(ws, top, handle, caller)
  {
    var on, un := ws[handle].ontop, ws[handle].under;
    var ws1 := if top != NIL && caller == WmSet then SetUnder(ws, on, un) else ws;
    var ws2 := if top != NIL && caller == WmSet && un != NIL then SetOntop(ws1, un, ws1[handle].ontop) else ws1;
    var ws3 := if top != NIL && caller != WmClose then SetUnder(SetOntop(ws2, top, handle), handle, top) else ws2;
    SetOntop(ws3, handle, NIL)
  }

  /** Opening: totop links the window in at the top. */
  lemma ToppedOpen(ws: map<int, Window>, z: seq<int>, handle: int)
    requires Stacked(ws, z) && NIL !in ws && handle in ws && handle !in z
    ensures CanTop(ws, Last(z), handle, WmOpen)
    ensures z != [] || ws[handle].under == NIL ==> Topped(ws, Last(z), handle, WmOpen) == Hooked(ws, z, |z|, handle)
    ensures z == [] && ws[handle].under != NIL ==> !Stacked(Topped(ws, Last(z), handle, WmOpen), [handle])
    ensures z == [] ==> Topped(ws, Last(z), handle, WmOpen) == SetOntop(ws, handle, NIL)
  {
    AllIn(ws, z);
    hide Stacked;
    if z != [] {
      assert Last(z) in z;
    } else if ws[handle].under != NIL {
      UnderLeft(SetOntop(ws, handle, NIL), [handle]);
    }
  }

  /** The order that opening a window leaves. */
  lemma OpenedOrder(ws: map<int, Window>, z: seq<int>, h: int, w: Window, box: Box)
    requires Stacked(ws, z) && OpenIn(ws, z) && NIL !in ws
    requires h in ws && !ws[h].isOpen && w.isOpen && w.under == ws[h].under && w.kind == ws[h].kind
    requires !MoverOnly(w.kind) && WorkMatches(ws[h], box) ==> WorkMatches(w, box)
    ensures h !in z && CanTop(ws[h := w], Last(z), h, WmOpen)
    ensures
      var ws', z' := Topped(ws[h := w], Last(z), h, WmOpen), z + [h];
      && SameBut(ws, ws', h, w) && (WorkOk(ws, box) ==> WorkOk(ws', box)) && NIL !in ws'
      && Last(z') == h && Head(z', NIL) == (if Last(z) == NIL then h else Head(z, NIL)) && (z != [] ==> z'[0] == z[0])
      && (Stacked(ws', z') <==> z != [] || ws[h].under == NIL) && (Stacked(ws', z') ==> OpenIn(ws', z'))
  {
    hide Stacked, OpenIn, WorkOk, WorkMatches, Hooked;
    OpenAt(ws, z, h);
    AllIn(ws, z);
    OpenStep(ws, z, h, w);
    ToppedOpen(ws[h := w], z, h);
    hide Topped, CanTop;
    if z == [] {
      assert z + [h] == [h];
      OnlyLinks(ws, h, w, Topped(ws[h := w], Last(z), h, WmOpen));
    }
    WorkStep(ws, h, w, Topped(ws[h := w], Last(z), h, WmOpen), box);
  }

  /** Closing the top window: totop cuts the link to it. */
  lemma ToppedClose(ws: map<int, Window>, z: seq<int>)
    requires Stacked(ws, z) && NIL !in ws && 1 < |z|
    ensures CanTop(ws, Last(z[..|z| - 1]), Last(z[..|z| - 1]), WmClose)
    ensures ws[Last(z)].under == Last(z[..|z| - 1])
    ensures
      Topped(ws, Last(z[..|z| - 1]), Last(z[..|z| - 1]), WmClose) == Unhooked(ws, z, |z| - 1)
  {
    LinksAt(ws, z, |z| - 1);
    AllIn(ws, z);
  }

  /** Setting to the front: totop takes the window out and links it in at the top. */
  lemma ToppedSet(ws: map<int, Window>, z: seq<int>, k: nat)
    requires Stacked(ws, z) && NIL !in ws && k + 1 < |z|
    ensures CanTop(ws, Last(z), z[k], WmSet)
    ensures Stacked(Unhooked(ws, z, k), Without(z, k))
    ensures Topped(ws, Last(z), z[k], WmSet) == Hooked(Unhooked(ws, z, k), Without(z, k), |z| - 1, z[k])
  {
    hide Stacked;
    LinksAt(ws, z, k);
    AllIn(ws, z);
    var ws1, rest := Unhooked(ws, z, k), Without(z, k);
    UnhookedStacked(ws, z, k);
    AllIn(ws1, rest);
    assert rest[|rest| - 1] == z[|z| - 1];
    LinksAt(ws, z, |z| - 1);
    LinksAt(ws, z, k + 1);
    assert k > 0 ==> z[k - 1] == ws[z[k]].under;
  }

  /** The order that setting a window to the front leaves. */
  lemma ToppedOrder(ws: map<int, Window>, z: seq<int>, k: nat, box: Box)
    requires Stacked(ws, z) && OpenIn(ws, z) && NIL !in ws && k + 1 < |z|
    ensures CanTop(ws, Last(z), z[k], WmSet) && Last(z) != NIL && z[1] != z[0]
    ensures
      var ws', z' := Topped(ws, Last(z), z[k], WmSet), Moved(z, k, |z| - 1);
      && Stacked(ws', z') && OpenIn(ws', z') && SameBut(ws, ws', z[k], ws[z[k]]) && NIL !in ws' && |z'| == |z|
      && Last(z') == z[k] && Head(z', NIL) == (if k == 0 then z[1] else z[0])
      && (WorkOk(ws, box) ==> WorkOk(ws', box)) && (NoCircle(ws) ==> NoCircle(ws'))
  {
    hide Stacked, OpenIn, WorkOk, Topped, CanTop, Hooked, Unhooked, NoCircle;
    AllIn(ws, z);
    DistinctIn(ws, z, 0);
    ToppedSet(ws, z, k);
    MoveStep(ws, z, k, |z| - 1);
    OpenMembers(ws, z);
    WorkStep(ws, z[k], ws[z[k]], Topped(ws, Last(z), z[k], WmSet), box);
    NoCircleKept(ws, Topped(ws, Last(z), z[k], WmSet), z[k], ws[z[k]]);
  }

  lemma MovedNowhere(z: seq<int>)
    requires z != []
    ensures Moved(z, |z| - 1, |z| - 1) == z
  {
  }

  // The links that tobot follows lead to windows.
  predicate CanBot(ws: map<int, Window>, top: int, desk: int, handle: int) {
    && handle in ws && desk in ws && ws[handle].under in ws && ws[desk].ontop in ws
    && (handle != top ==> ws[handle].ontop in ws)
  }

  // The windows after tobot's link writes; on is the lowest window above the desktop.
  function Botted(ws: map<int, Window>, top: int, desk: int, handle: int): map<int, Window>
    requires CanBot(ws, top, desk, handle)
  {
    var on, un := ws[desk].ontop, ws[handle].under;
    var ws1 := if handle != top then SetUnder(ws, ws[handle].ontop, un) else ws;
    var ws2 := SetOntop(ws1, un, ws1[handle].ontop);
    var ws3 := SetUnder(ws2, handle, ws2[on].under);
    var ws4 := SetOntop(ws3, handle, ws3[desk].ontop);
    var ws5 := SetUnder(ws4, on, handle);
    SetOntop(ws5, desk, handle)
  }

  lemma DistinctIn(ws: map<int, Window>, z: seq<int>, k: nat)
    requires Stacked(ws, z) && k < |z|
    ensures forall i :: 0 <= i < |z| && i != k ==> z[i] != z[k]
  {
  }

  // tobot does not meet a NIL link, or one to a window that is gone.
  predicate CanLower(ws: map<int, Window>, top: int, desk: int, handle: int) {
    desk in ws && (ws[desk].ontop == handle || CanBot(ws, top, desk, handle))
  }

  // What tobot has written by the time it meets such a link.
  function CutBefore(ws: map<int, Window>, top: int, desk: int, handle: int): map<int, Window>
    requires handle in ws
  {
    if desk in ws && ws[desk].ontop in ws && handle != top && ws[handle].ontop in ws then
      SetUnder(ws, ws[handle].ontop, NIL)
    else ws
  }

  // The open windows are in an order again after tobot's link writes.
  predicate Settles(ws: map<int, Window>, z: seq<int>, desk: int, handle: int) {
    if desk in z then handle != desk else desk in ws && ws[desk].ontop == Head(z, NIL)
  }

  // The place that the window at position k gets.
  ghost function LowPlace(z: seq<int>, desk: int, k: nat): nat {
    if desk !in z then 0 else if k < IndexOf(z, desk) then IndexOf(z, desk) else IndexOf(z, desk) + 1
  }

  ghost function LowOrder(ws: map<int, Window>, z: seq<int>, desk: int, k: nat): seq<int>
    requires k < |z|
  {
    if Settles(ws, z, desk, z[k]) && LowPlace(z, desk, k) < |z| then Moved(z, k, LowPlace(z, desk, k)) else z
  }

  // The link of the second lowest window to the lowest is cut.
  lemma UnderCut(ws: map<int, Window>, z: seq<int>, box: Box)
    requires Stacked(ws, z) && |z| > 1
    ensures z[1] in ws && ws[z[0]].ontop == z[1] && !Stacked(SetUnder(ws, z[1], NIL), z)
    ensures WorkOk(ws, box) ==> WorkOk(SetUnder(ws, z[1], NIL), box)
    ensures NoCircle(ws) ==> NoCircle(SetUnder(ws, z[1], NIL))
  {
    LinksAt(ws, z, 0);
    var ws' := SetUnder(ws, z[1], NIL);
    assert Before(z, 1) == z[0] && ws'[z[1]].under == NIL;
    hide NoCircle;
    if NoCircle(ws) {
      NoCircleStep(ws, ws', NIL);
    }
  }

  // The links of the window at position k, and those of a window that is to be beside it.
  lemma LowNeighbours(ws: map<int, Window>, z: seq<int>, desk: int, k: nat)
    requires Stacked(ws, z) && NIL !in ws && k < |z|
    ensures z[k] in ws && z[0] in ws && (ws[z[k]].under == NIL <==> k == 0) && (ws[z[k]].under in ws <==> k > 0)
    ensures (z[k] == Last(z) <==> k == |z| - 1) && (k > 0 ==> z[k] != z[0])
    ensures k + 1 < |z| ==> ws[z[k]].ontop == z[k + 1] && z[k + 1] in ws
    ensures k > 0 ==> z[k - 1] == ws[z[k]].under && z[k - 1] != NIL
    ensures desk in ws && ws[desk].ontop in ws ==> (CanBot(ws, Last(z), desk, z[k]) <==> k > 0)
  {
  }

  // The cases in which tobot meets no NIL link, with the desktop at the bottom.
  lemma LowCases(ws: map<int, Window>, z: seq<int>, desk: int, k: nat)
    requires Stacked(ws, z) && NIL !in ws && k < |z| && z[0] == desk
    ensures desk in ws && (ws[desk].ontop in ws <==> |z| > 1) && (ws[desk].ontop == z[k] <==> k == 1)
    ensures (z[k] == desk <==> k == 0) && LowPlace(z, desk, k) == 1 && (k == 1 ==> Moved(z, k, 1) == z)
  {
    LinksAt(ws, z, 0);
    if k == 1 {
      assert Without(z, 1) == z[..1] + z[2..];
      assert z == z[..1] + [z[1]] + z[2..];
    }
  }

  // The first link writes of tobot link the neighbours of the window to each other.
  lemma FirstLinks(ws: map<int, Window>, z: seq<int>, k: nat)
    requires Stacked(ws, z) && 0 < k < |z|
    ensures ws[z[k]].under in ws && (z[k] != Last(z) ==> ws[z[k]].ontop in ws)
    ensures
      var ws1 := if z[k] != Last(z) then SetUnder(ws, ws[z[k]].ontop, ws[z[k]].under) else ws;
      SetOntop(ws1, ws[z[k]].under, ws1[z[k]].ontop) == Unhooked(ws, z, k)
    ensures z[k] in Unhooked(ws, z, k)
  {
    hide Stacked;
    LinksAt(ws, z, k);
    AllIn(ws, z);
    DistinctIn(ws, z, k);
  }

  // So do the others, with the window linked in above the desktop.
  lemma LastLinks(ws: map<int, Window>, desk: int, on: int, h: int)
    requires h in ws && desk in ws && on in ws && h !in {desk, on}
    ensures
      var ws3 := SetUnder(ws, h, ws[on].under);
      var ws4 := SetOntop(ws3, h, ws3[desk].ontop);
      ws4 == SetUnder(SetOntop(ws, h, ws[desk].ontop), h, ws[on].under)
  {
  }

  /** Setting to the back: tobot takes the window out and links it in above the desktop, which stands at position d. */
  lemma Bottomed(ws: map<int, Window>, z: seq<int>, d: nat, k: nat)
    requires Stacked(ws, z) && 0 < k < |z| && d + 1 < |z| && k != d && k != d + 1
    ensures CanBot(ws, Last(z), z[d], z[k])
    ensures Stacked(Unhooked(ws, z, k), Without(z, k))
    ensures
      Botted(ws, Last(z), z[d], z[k]) == Hooked(Unhooked(ws, z, k), Without(z, k), if k < d then d else d + 1, z[k])
  {
    hide Stacked, Unhooked;
    LinksAt(ws, z, d);
    FirstLinks(ws, z, k);
    AllIn(ws, z);
    DistinctIn(ws, z, k);
    var rest, p := Without(z, k), if k < d then d - 1 else d;
    UnhookedStacked(ws, z, k);
    WithoutAt(z, k, p);
    WithoutAt(z, k, p + 1);
    hide Without;
    LinksAt(Unhooked(ws, z, k), rest, p);
    LinksAt(Unhooked(ws, z, k), rest, p + 1);
    LastLinks(Unhooked(ws, z, k), z[d], z[d + 1], z[k]);
  }

  // ws1 is ws0 but for links; ontop links are other ones in s only.
  ghost predicate LinksBut(ws0: map<int, Window>, ws1: map<int, Window>, s: set<int>) {
    && ws1.Keys == ws0.Keys
    && forall h :: h in ws0 ==>
      ws1[h] == ws0[h].(ontop := ws1[h].ontop, under := ws1[h].under) && (h in s || ws1[h].ontop == ws0[h].ontop)
  }

  lemma UnderLinks(ws0: map<int, Window>, ws: map<int, Window>, s: set<int>, h: int, x: int)
    requires LinksBut(ws0, ws, s) && h in ws
    ensures LinksBut(ws0, SetUnder(ws, h, x), s)
  {
  }

  lemma OntopLinks(ws0: map<int, Window>, ws: map<int, Window>, s: set<int>, h: int, x: int)
    requires LinksBut(ws0, ws, s) && h in ws && h in s
    ensures LinksBut(ws0, SetOntop(ws, h, x), s)
  {
  }

  // The only closed window that tobot can give another ontop link is the desktop.
  lemma BottedLinks(ws: map<int, Window>, top: int, desk: int, handle: int)
    requires CanBot(ws, top, desk, handle)
    ensures LinksBut(ws, Botted(ws, top, desk, handle), {desk, handle, ws[handle].under})
    ensures Botted(ws, top, desk, handle)[desk].ontop == handle
  {
    var on, un := ws[desk].ontop, ws[handle].under;
    var s := {desk, handle, un};
    assert LinksBut(ws, ws, s);
    hide LinksBut;
    if handle != top {
      UnderLinks(ws, ws, s, ws[handle].ontop, un);
    }
    var ws1 := if handle != top then SetUnder(ws, ws[handle].ontop, un) else ws;
    OntopLinks(ws, ws1, s, un, ws1[handle].ontop);
    var ws2 := SetOntop(ws1, un, ws1[handle].ontop);
    UnderLinks(ws, ws2, s, handle, ws2[on].under);
    var ws3 := SetUnder(ws2, handle, ws2[on].under);
    OntopLinks(ws, ws3, s, handle, ws3[desk].ontop);
    var ws4 := SetOntop(ws3, handle, ws3[desk].ontop);
    UnderLinks(ws, ws4, s, on, handle);
    OntopLinks(ws, SetUnder(ws4, on, handle), s, desk, handle);
  }

  lemma BottedRest(ws: map<int, Window>, top: int, desk: int, handle: int, box: Box)
    requires CanBot(ws, top, desk, handle) && ws[handle].isOpen && ws[ws[handle].under].isOpen && NIL !in ws
    ensures
      var ws' := Botted(ws, top, desk, handle);
      NIL !in ws' && (WorkOk(ws, box) ==> WorkOk(ws', box)) && (NoCircle(ws) ==> NoCircle(ws'))
  {
    hide NoCircle, WorkOf, Botted;
    BottedLinks(ws, top, desk, handle);
    var ws' := Botted(ws, top, desk, handle);
    if NoCircle(ws) {
      NoCircleStep(ws, ws', NIL);
    }
  }

  /** With the desktop open at another place, the window comes to stand just above it. */
  lemma LoweredOpen(ws: map<int, Window>, z: seq<int>, d: nat, k: nat)
    requires Stacked(ws, z) && OpenIn(ws, z) && 0 < k < |z| && d + 1 < |z| && k != d && k != d + 1
    ensures CanBot(ws, Last(z), z[d], z[k])
    ensures
      var ws', z' := Botted(ws, Last(z), z[d], z[k]), Moved(z, k, if k < d then d else d + 1);
      && Stacked(ws', z') && OpenIn(ws', z') && SameBut(ws, ws', z[k], ws[z[k]]) && |z'| == |z| && z'[0] == z[0]
      && Last(z') == (if k == |z| - 1 then z[k - 1] else Last(z))
  {
    hide Stacked, OpenIn, Botted, Hooked, Unhooked, SameBut, CanBot;
    AllIn(ws, z);
    Bottomed(ws, z, d, k);
    MoveStep(ws, z, k, if k < d then d else d + 1);
  }

  /** With the desktop closed and its link left to the lowest window, the window becomes the lowest one. */
  lemma LoweredLeft(ws: map<int, Window>, z: seq<int>, desk: int, k: nat)
    requires 0 < k < |z| && Stacked(ws, z) && OpenIn(ws, z) && CanBot(ws, Last(z), desk, z[k])
    requires !ws[desk].isOpen && ws[desk].ontop == z[0]
    ensures
      var ws', z' := Botted(ws, Last(z), desk, z[k]), Moved(z, k, 0);
      && Stacked(ws', z') && OpenIn(ws', z') && |z'| == |z| && z'[0] == z[k]
      && Last(z') == (if k == |z| - 1 then z[k - 1] else Last(z))
  {
    hide Stacked, OpenIn, Botted, SameBut, CanBot;
    MoveStep(ws, z, k, 0);
    UnhookedStacked(ws, z, k);
    AllIn(ws, z);
    AllIn(Unhooked(ws, z, k), Without(z, k));
    BottedLeft(ws, z, desk, k);
    ClosedLink(ws, Hooked(Unhooked(ws, z, k), Without(z, k), 0, z[k]), Moved(z, k, 0), z[k], desk, z[k]);
  }

  lemma BottedLeft(ws: map<int, Window>, z: seq<int>, desk: int, k: nat)
    requires 0 < k < |z| && Stacked(ws, z) && OpenIn(ws, z) && CanBot(ws, Last(z), desk, z[k])
    requires !ws[desk].isOpen && ws[desk].ontop == z[0]
    requires z[k] in ws && (forall i :: 0 <= i < |z| ==> z[i] in ws)
    requires forall i :: 0 <= i < |z| - 1 ==> Without(z, k)[i] in Unhooked(ws, z, k)
    ensures
      && desk in Hooked(Unhooked(ws, z, k), Without(z, k), 0, z[k])
      && Botted(ws, Last(z), desk, z[k]) == SetOntop(Hooked(Unhooked(ws, z, k), Without(z, k), 0, z[k]), desk, z[k])
  {
    hide Stacked, OpenIn, Unhooked;
    FirstLinks(ws, z, k);
    DistinctIn(ws, z, k);
    OpenAt(ws, z, desk);
    OpenMembers(ws, z);
    UnhookedSame(ws, z, k);
    LastLinks(Unhooked(ws, z, k), desk, z[0], z[k]);
    UnhookedStacked(ws, z, k);
    WithoutAt(z, k, 0);
    LinksAt(Unhooked(ws, z, k), Without(z, k), 0);
  }

  // The link of a closed window does not matter to the order.
  lemma ClosedLink(ws0: map<int, Window>, ws: map<int, Window>, z: seq<int>, h: int, desk: int, x: int)
    requires h in ws0 && desk in ws0 && !ws0[desk].isOpen && SameBut(ws0, ws, h, ws0[h])
    requires Stacked(ws, z) && OpenIn(ws, z)
    ensures desk in ws && Stacked(SetOntop(ws, desk, x), z) && OpenIn(SetOntop(ws, desk, x), z)
  {
    hide Stacked, OpenIn;
    OpenAt(ws, z, desk);
    OpenMembers(ws, z);
    StackedElsewhere(ws, SetOntop(ws, desk, x), z);
    OpenElsewhere(ws, SetOntop(ws, desk, x), z);
  }

  /** Asked for while it has windows below, the desktop comes to stand above itself. */
  lemma LoweredSelf(ws: map<int, Window>, z: seq<int>, top: int, desk: int, z': seq<int>)
    requires CanBot(ws, top, desk, desk) && desk in ws && ws[desk].isOpen && NIL !in ws && OpenIn(ws, z)
    ensures !InOrder(Botted(ws, top, desk, desk), z', Head(z, NIL))
  {
    hide Stacked, OpenIn, Botted, CanBot;
    BottedLinks(ws, top, desk, desk);
    var ws' := Botted(ws, top, desk, desk);
    if Stacked(ws', z') && OpenIn(ws', z') {
      OpenAt(ws', z', desk);
      var i := IndexOf(z', desk);
      LinksAt(ws', z', i);
      if i + 1 < |z'| {
        DistinctIn(ws', z', i);
      }
    }
  }

  /** With the desktop closed and its link left to anything but the lowest window, the links fit no order. */
  lemma LoweredAstray(ws: map<int, Window>, z: seq<int>, desk: int, k: nat, z': seq<int>)
    requires 0 < k < |z| && Stacked(ws, z) && OpenIn(ws, z) && CanBot(ws, Last(z), desk, z[k]) && NIL !in ws
    requires !ws[desk].isOpen && ws[desk].ontop !in {z[0], z[k]}
    ensures !InOrder(Botted(ws, Last(z), desk, z[k]), z', z[0])
  {
    hide Stacked, OpenIn, Botted, CanBot;
    var h, ws' := z[k], Botted(ws, Last(z), desk, z[k]);
    var on := AstrayOntop(ws, z, desk, k);
    OpenMembers(ws, z);
    BottedLinks(ws, Last(z), desk, h);
    if Stacked(ws', z') && OpenIn(ws', z') {
      OpenAt(ws', z', h);
      var i := IndexOf(z', h);
      LinksAt(ws', z', i);
      OpenMembers(ws', z');
      OpenAt(ws, z, on);
      var p := AstrayUnder(ws, z, desk, k);
      LinksAt(ws', z', i - 1);
    }
  }

  lemma AstrayOntop(ws: map<int, Window>, z: seq<int>, desk: int, k: nat) returns (on: int)
    requires 0 < k < |z| && Stacked(ws, z) && OpenIn(ws, z) && CanBot(ws, Last(z), desk, z[k]) && NIL !in ws
    requires !ws[desk].isOpen && ws[desk].ontop != z[k]
    ensures on == ws[desk].ontop && on in ws && on != NIL && z[k] in ws && ws[z[k]].isOpen && desk !in z
    ensures z[k] in Botted(ws, Last(z), desk, z[k]) && Botted(ws, Last(z), desk, z[k])[z[k]].ontop == on
  {
    hide Stacked, OpenIn;
    LinksAt(ws, z, k);
    OpenMembers(ws, z);
    OpenAt(ws, z, desk);
    on := ws[desk].ontop;
    assert ws[z[k]].under == z[k - 1];
  }

  // The window that stays below the one the desktop's link leads to.
  lemma AstrayUnder(ws: map<int, Window>, z: seq<int>, desk: int, k: nat) returns (p: int)
    requires 0 < k < |z| && Stacked(ws, z) && OpenIn(ws, z) && CanBot(ws, Last(z), desk, z[k]) && NIL !in ws
    requires !ws[desk].isOpen && ws[desk].ontop in z && ws[desk].ontop !in {z[0], z[k]}
    ensures
      var ws' := Botted(ws, Last(z), desk, z[k]);
      p in ws' && p !in {NIL, z[k]} && z[k] in ws' && ws'[z[k]].under == p && ws'[p].ontop == ws[desk].ontop
  {
    hide Stacked, OpenIn;
    OpenAt(ws, z, desk);
    var m := IndexOf(z, ws[desk].ontop);
    p := if m - 1 == k then z[k - 1] else z[m - 1];
    LinksAt(ws, z, k);
    LinksAt(ws, z, m);
    LinksAt(ws, z, m - 1);
    LinksAt(ws, z, k - 1);
    DistinctIn(ws, z, k);
    DistinctIn(ws, z, m);
    DistinctIn(ws, z, m - 1);
    AllIn(ws, z);
  }

  /** What tobot makes of the order. */
  lemma LoweredOrder(ws: map<int, Window>, z: seq<int>, desk: int, k: nat)
    requires Stacked(ws, z) && OpenIn(ws, z) && NIL !in ws && 0 < k < |z|
    requires CanBot(ws, Last(z), desk, z[k]) && ws[desk].ontop != z[k]
    ensures
      var ws', z' := Botted(ws, Last(z), desk, z[k]), LowOrder(ws, z, desk, k);
      if Settles(ws, z, desk, z[k]) then
        && Stacked(ws', z') && OpenIn(ws', z') && |z'| == |z|
        && Last(z') == (if k == |z| - 1 then z[k - 1] else Last(z))
        && LowPlace(z, desk, k) < |z| && z' == Moved(z, k, LowPlace(z, desk, k))
        && z'[0] == if desk in z then z[0] else z[k]
      else forall z' :: !InOrder(ws', z', z[0])
    ensures desk in z && z[k] != desk ==> SameBut(ws, Botted(ws, Last(z), desk, z[k]), z[k], ws[z[k]])
  {
    hide Stacked, OpenIn, Botted, Moved, InOrder, SameBut;
    OpenAt(ws, z, desk);
    if desk in z {
      var d := IndexOf(z, desk);
      if z[k] == desk {
        forall z'
          ensures !InOrder(Botted(ws, Last(z), desk, z[k]), z', z[0])
        {
          LoweredSelf(ws, z, Last(z), desk, z');
        }
      } else {
        LinksAt(ws, z, d);
        LowNeighbours(ws, z, desk, d);
        LoweredOpen(ws, z, d, k);
      }
    } else if ws[desk].ontop == z[0] {
      LoweredLeft(ws, z, desk, k);
    } else {
      forall z'
        ensures !InOrder(Botted(ws, Last(z), desk, z[k]), z', z[0])
      {
        LoweredAstray(ws, z, desk, k, z');
      }
    }
  }

  // The point lies on the window or on its right or lower edge line.
  predicate Under(ws: map<int, Window>, h: int, mx: int, my: int) {
    h in ws && var r := ws[h].curr; r.x <= mx <= r.x + r.w && r.y <= my <= r.y + r.h
  }

  // The window that wm_open leaves, apart from its links.
  function Opened(w: Window, box: Box, rect: Rect): Window {
    var w' := Adjusted(w, box, AtLeastMin(w.kind, box, rect));
    w'.(prev := w'.curr, isOpen := true)
  }

  // The window that wm_close leaves, apart from its links.
  function Closed(w: Window): Window {
    w.(prev := w.curr, curr := Rect(0, 0, 0, 0), work := Rect(0, 0, 0, 0), isOpen := false)
  }

  /** The part of wm_close that works on the window itself. */
  method ClosedDown(w: Window) returns (w': Window)
    ensures w' == Closed(w)
  {
    w' := w.(prev := w.curr);
    w' := w'.(curr := Rect(0, 0, 0, 0));
    w' := w'.(work := w'.curr);
    w' := w'.(isOpen := false);
  }

  lemma OpenedRect(w: Window, box: Box, rect: Rect)
    ensures
      var w', (minW, minH) := Opened(w, box, rect), MinSize(w.kind, box);
      && w'.isOpen && w'.kind == w.kind && w'.prev == w'.curr
      && w'.curr == Rect(rect.x, rect.y, Max(rect.w, minW), Max(rect.h, minH))
  {
    hide MinSize, AdjustedWork;
  }

  // A closed window has the links it had, and no size.
  lemma ClosedLinks(w: Window)
    ensures var w' := Closed(w);
      && w'.kind == w.kind && !w'.isOpen && w'.ontop == w.ontop && w'.under == w.under
      && w'.prev == w.curr && w'.curr == w'.work == Rect(0, 0, 0, 0)
  {
  }

  /** The part of wm_open that works on the window itself. */
  method NewlyOpened(w: Window, box: Box, rect: Rect) returns (w': Window)
    requires box.Valid()
    ensures w' == Opened(w, box, rect)
  {
    var minW, minH := WmMin(w.kind, box);
    var rect' := rect;
    if minW > rect'.w {
      rect' := rect'.(w := minW);
    }
    if minH > rect'.h {
      rect' := rect'.(h := minH);
    }
    hide MinSize, Adjusted;
    assert rect' == AtLeastMin(w.kind, box, rect);
    w' := WAdjust(w, box, rect');
    w' := w'.(prev := w'.curr);
    w' := w'.(isOpen := true);
  }

  /** What opening does to the work area. */
  lemma OpenWork(w: Window, box: Box, rect: Rect)
    requires box.Valid()
    ensures var w' := Opened(w, box, rect);
      && w'.kind == w.kind && w'.isOpen && w'.under == w.under
      && (!MoverOnly(w.kind) && WorkMatches(w, box) ==> WorkMatches(w', box) && w'.work.w >= 0 && w'.work.h >= 0)
  {
    MinSizeFits(w.kind, box, rect);
    if !MoverOnly(w.kind) && WorkMatches(w, box) {
      AdjustKeepsWork(w, box, AtLeastMin(w.kind, box, rect));
    }
  }

  /** A new current rectangle leaves the order as it is and the work area right. */
  lemma CurrStep(ws: map<int, Window>, z: seq<int>, h: int, box: Box, r: Rect)
    requires box.Valid() && Stacked(ws, z) && OpenIn(ws, z) && h in ws
    ensures
      var ws' := ws[h := Adjusted(ws[h], box, r)];
      Stacked(ws', z) && OpenIn(ws', z) && (WorkOk(ws, box) ==> WorkOk(ws', box)) && (NoCircle(ws) ==> NoCircle(ws'))
  {
    hide Stacked, OpenIn, WorkOk, SameBut, WorkMatches, MoverOnly, NoCircle;
    var w' := Adjusted(ws[h], box, r);
    var ws' := ws[h := w'];
    AdjustedRest(ws[h], box, r);
    AllIn(ws, z);
    if WorkMatches(ws[h], box) && !MoverOnly(ws[h].kind) {
      AdjustKeepsWork(ws[h], box, r);
    }
    hide Adjusted;
    OnlyLinks(ws, h, w', ws');
    WorkStep(ws, h, w', ws', box);
    NoCircleKept(ws, ws', h, w');
    StackedElsewhere(ws, ws', z);
    OpenElsewhere(ws, ws', z);
  }

  /** The work areas are kept when the window itself is. */
  lemma WorkStep(ws: map<int, Window>, h: int, w: Window, ws': map<int, Window>, box: Box)
    requires SameBut(ws, ws', h, w) && h in ws
    requires !MoverOnly(w.kind) && WorkMatches(ws[h], box) ==> WorkMatches(w, box)
    requires w.kind == ws[h].kind
    ensures WorkOk(ws, box) ==> WorkOk(ws', box)
  {
    if WorkOk(ws, box) {
      WorkHere(ws, h, box);
      WorkKept(ws, ws', h, w, box);
    }
  }

  lemma AdjustedCurr(w: Window, box: Box, r: Rect)
    ensures Adjusted(w, box, r).curr == r && Adjusted(w, box, r).prev == w.curr
  {
  }

  lemma AdjustedRest(w: Window, box: Box, r: Rect)
    ensures var w' := Adjusted(w, box, r);
      w'.kind == w.kind && w'.isOpen == w.isOpen && w'.ontop == w.ontop && w'.under == w.under
  {
  }

  // A closed window may come.
  lemma CreatedStacked(ws: map<int, Window>, z: seq<int>, h: int, kind: Kind, box: Box)
    requires Stacked(ws, z) && OpenIn(ws, z) && h !in ws && h != NIL && NIL !in ws
    ensures NoCircle(ws) ==> NoCircle(ws[h := FreshWindow(kind)])
    ensures Stacked(ws[h := FreshWindow(kind)], z) && OpenIn(ws[h := FreshWindow(kind)], z)
    ensures WorkOk(ws, box) ==> WorkOk(ws[h := FreshWindow(kind)], box)
  {
    var ws' := ws[h := FreshWindow(kind)];
    assert forall i {:trigger z[i]} :: 0 <= i < |z| ==> z[i] != h && ws'[z[i]] == ws[z[i]];
    hide WorkOf, NoCircle;
    if NoCircle(ws) {
      NoCircleStep(ws, ws', h);
    }
  }

  // A closed window may go.
  lemma GoneStacked(ws: map<int, Window>, z: seq<int>, h: int, box: Box)
    requires Stacked(ws, z) && OpenIn(ws, z) && h in ws && !ws[h].isOpen
    ensures Stacked(ws - {h}, z) && OpenIn(ws - {h}, z)
    ensures WorkOk(ws, box) ==> WorkOk(ws - {h}, box)
    ensures NoCircle(ws) ==> NoCircle(ws - {h})
  {
    hide NoCircle;
    var ws' := ws - {h};
    if NoCircle(ws) {
      NoCircleStep(ws, ws', h);
    }
    assert forall i :: 0 <= i < |z| ==> z[i] != h;
    assert forall i {:trigger z[i]} :: 0 <= i < |z| ==> z[i] in ws' && ws'[z[i]] == ws[z[i]];
  }

  lemma WorkHere(ws: map<int, Window>, h: int, box: Box)
    requires WorkOk(ws, box) && h in ws
    ensures !MoverOnly(ws[h].kind) ==> WorkMatches(ws[h], box)
  {
  }

  lemma SameAt(ws0: map<int, Window>, ws1: map<int, Window>, h: int, w: Window)
    requires SameBut(ws0, ws1, h, w)
    ensures h in ws1 && ws1.Keys == ws0.Keys && SameWindow(w, ws1[h])
    ensures ws1[h].work == w.work && ws1[h].kind == w.kind && ws1[h].isOpen == w.isOpen
    ensures ws1[h].curr == w.curr && ws1[h].prev == w.prev
  {
  }

  lemma SameOthers(ws0: map<int, Window>, ws1: map<int, Window>, h: int, w: Window)
    requires SameBut(ws0, ws1, h, w)
    ensures forall e :: e in ws1 && e != h ==> SameWindow(ws0[e], ws1[e])
  {
  }

  lemma SameSelf(ws: map<int, Window>)
    ensures forall e :: e in ws ==> SameWindow(ws[e], ws[e])
  {
  }

  lemma OnlyLinks(ws: map<int, Window>, h: int, w: Window, ws': map<int, Window>)
    requires h in ws && (ws' == ws[h := w] || (w.isOpen && ws' == SetOntop(ws[h := w], h, NIL)))
    ensures SameBut(ws, ws', h, w)
  {
  }

  lemma DistinctAt(ws: map<int, Window>, z: seq<int>, i: nat, k: nat)
    requires Stacked(ws, z) && i < |z| && k < |z| && z[i] == z[k]
    ensures i == k
  {
  }

  /** A bottom window with a link to a window below it is not a proper stack. */
  lemma UnderLeft(ws: map<int, Window>, z: seq<int>)
    requires z != [] && z[0] in ws && ws[z[0]].under != NIL
    ensures !Stacked(ws, z)
  {
    if Stacked(ws, z) {
      LinksAt(ws, z, 0);
      assert false;
    }
  }
}
