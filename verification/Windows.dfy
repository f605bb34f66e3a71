/** What the window manager keeps per window, as far as these models need it. */
module Windows {
  import opened Geometry
  import opened Chains

  // Thickness of the drop shadow in pixels.
  const SHADOW := 2

  // The component bits of w_kind.
  datatype Kind = Kind(
    name: bool, closer: bool, fuller: bool, mover: bool, info: bool, sizer: bool,
    upArrow: bool, dnArrow: bool, vSlide: bool, lfArrow: bool, rtArrow: bool, hSlide: bool, menuBar: bool
  )

  datatype Window = Window(
    kind: Kind,
    isOpen: bool,
    curr: Rect,
    prev: Rect,
    work: Rect,
    ontop: int,  // handle of the window above, or NIL
    under: int   // handle of the window below, or NIL
  )

  // The area a window hides: its current rectangle and the drop shadow.
  function Shadowed(w: Window): Rect {
    w.curr.(w := w.curr.w + SHADOW, h := w.curr.h + SHADOW)
  }

  // hs lists the windows met on the ontop chain, starting above window h; then comes e, which is NIL or no window.
  ghost predicate Trail(ws: map<int, Window>, h: int, hs: seq<int>, e: int) {
    && h in ws && ws[h].ontop == Head(hs, e) && (e == NIL || e !in ws)
    && (forall i :: 0 <= i < |hs| ==> hs[i] in ws && hs[i] != NIL)
    && forall i {:trigger ws[hs[i]]} :: 0 <= i < |hs| ==> ws[hs[i]].ontop == After(hs, i, e)
  }

  // The chain leads to windows only.
  ghost predicate OntopChain(ws: map<int, Window>, h: int, hs: seq<int>) {
    Trail(ws, h, hs, NIL)
  }

  /** A window has one chain above it. */
  lemma {:induction false} TrailUnique(ws: map<int, Window>, h: int, hs: seq<int>, e: int, hs': seq<int>, e': int)
    requires Trail(ws, h, hs, e) && Trail(ws, h, hs', e')
    ensures hs == hs' && e == e'
    decreases |hs|
  {
    if hs != [] && hs' != [] {
      TrailTail(ws, h, hs, e);
      TrailTail(ws, h, hs', e');
      TrailUnique(ws, hs[0], hs[1..], e, hs'[1..], e');
      assert hs == [hs[0]] + hs[1..] && hs' == [hs'[0]] + hs'[1..];
    }
  }

  lemma TrailTail(ws: map<int, Window>, h: int, hs: seq<int>, e: int)
    requires Trail(ws, h, hs, e) && hs != []
    ensures Trail(ws, hs[0], hs[1..], e)
  {
    assert ws[hs[0]].ontop == After(hs, 0, e);
    forall i | 0 <= i < |hs| - 1
      ensures ws[hs[1..][i]].ontop == After(hs[1..], i, e)
    {
      assert ws[hs[i + 1]].ontop == After(hs, i + 1, e);
    }
  }

  function ShadowsOf(ws: map<int, Window>, hs: seq<int>): seq<Rect>
    requires forall i :: 0 <= i < |hs| ==> hs[i] in ws
  {
    seq(|hs|, i requires 0 <= i < |hs| => Shadowed(ws[hs[i]]))
  }

  function NoWindow(): Window {
    Window(NoParts(), false, Rect(0, 0, 0, 0), Rect(0, 0, 0, 0), Rect(0, 0, 0, 0), NIL, NIL)
  }

  function NoParts(): Kind {
    Kind(false, false, false, false, false, false, false, false, false, false, false, false, false)
  }

  // The structure of a window that has been created and not yet opened.
  function FreshWindow(kind: Kind): Window {
    NoWindow().(kind := kind)
  }
}
