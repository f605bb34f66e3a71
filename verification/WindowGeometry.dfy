/** Work area, border and minimum size of a window (wm_calc, wm_min and w_adjust of aes/newwmlib.c). */
module WindowGeometry {
  import opened Geometry
  import opened Windows

  const ADJ3DPIX := 2  // pixel adjustment for 3D objects

  // Size of a character box on this screen.
  datatype Box = Box(w: int, h: int) {
    function XInc(): int { w + 2 * ADJ3DPIX }
    function YInc(): int { h + 2 * ADJ3DPIX }
    predicate Valid() { w > 0 && h > 0 }
  }

  predicate VParts(k: Kind) { k.upArrow || k.dnArrow || k.vSlide }

  predicate HParts(k: Kind) { k.lfArrow || k.rtArrow || k.hSlide }

  predicate TitleParts(k: Kind) { k.name || k.closer || k.fuller }

  // A window whose only title part is the mover bar.
  predicate MoverOnly(k: Kind) { k.mover && !TitleParts(k) }

  // x, if the part is there.
  function Opt(there: bool, x: int): int { if there then x else 0 }

  // Widths of the four border strips.
  datatype Border = Border(left: int, top: int, right: int, bottom: int)

  function BorderOf(k: Kind, box: Box): Border {
    var top := (if TitleParts(k) then box.YInc() else 0) + (if k.info then box.h else 0)
      + (if k.menuBar then box.YInc() else 0);
    Border(1,
           if top == 0 then 1 else top,
           if VParts(k) || (k.sizer && !HParts(k)) then box.XInc() else 1,
           if HParts(k) then box.YInc() else 1)
  }

  function Shrunk(r: Rect, b: Border): Rect {
    Rect(r.x + b.left, r.y + b.top, r.w - b.left - b.right, r.h - b.top - b.bottom)
  }

  function Enlarged(r: Rect, b: Border): Rect {
    Rect(r.x - b.left, r.y - b.top, r.w + b.left + b.right, r.h + b.top + b.bottom)
  }

  // wm_calc(WC_WORK, ...)
  function WorkOf(k: Kind, box: Box, r: Rect): Rect { Shrunk(r, BorderOf(k, box)) }

  /**
   The four strips between a work area and the border of its window: a line at the left; the rows of title, information
   and menu above; a column of character boxes at the right for a bar or a lone size box; a row below for a bar. A line
   stands for whatever is not there.
   */
  predicate Framed(k: Kind, box: Box, work: Rect, outer: Rect) {
    var title, info, menu := Opt(k.name || k.closer || k.fuller, box.h + 4), Opt(k.info, box.h),
      Opt(k.menuBar, box.h + 4);
    var vbar, hbar := k.upArrow || k.dnArrow || k.vSlide, k.lfArrow || k.rtArrow || k.hSlide;
    && work.x - outer.x == 1
    && work.y - outer.y == (if title + info + menu > 0 then title + info + menu else 1)
    && outer.x + outer.w - (work.x + work.w) == (if vbar || (k.sizer && !hbar) then box.w + 4 else 1)
    && outer.y + outer.h - (work.y + work.h) == (if hbar then box.h + 4 else 1)
  }

  lemma FramedBorder(k: Kind, box: Box, r: Rect)
    requires box.Valid()
    ensures Framed(k, box, r, Enlarged(r, BorderOf(k, box))) && Framed(k, box, Shrunk(r, BorderOf(k, box)), r)
  {
  }

  // WC_BORDER or WC_WORK
  datatype CalcType = WcBorder | WcWork

  method WmCalc(type_: CalcType, kind: Kind, box: Box, r: Rect) returns (o: Rect)
    requires box.Valid()
    ensures o == if type_ == WcBorder then Enlarged(r, BorderOf(kind, box)) else Shrunk(r, BorderOf(kind, box))
    ensures if type_ == WcBorder then Framed(kind, box, r, o) else Framed(kind, box, o, r)
  {
    var tb, bb, lb, rb := 0, 0, 1, 0;
    var xinc, yinc := box.w + 2 * ADJ3DPIX, box.h + 2 * ADJ3DPIX;
    if kind.name || kind.closer || kind.fuller {
      tb := tb + yinc;
    }
    if kind.info {
      tb := tb + box.h;
    }
    if kind.menuBar {
      tb := tb + yinc;
    }
    var lvparts := kind.upArrow || kind.dnArrow || kind.vSlide;
    var lhparts := kind.lfArrow || kind.rtArrow || kind.hSlide;
    if kind.sizer && !lvparts && !lhparts {
      rb := rb + xinc;
    }
    if lvparts {
      rb := rb + xinc;
    }
    if lhparts {
      bb := bb + yinc;
    }
    if rb == 0 {
      rb := 1;
    }
    if bb == 0 {
      bb := 1;
    }
    if tb == 0 {
      tb := 1;
    }
    assert tb == BorderOf(kind, box).top;
    assert Border(lb, tb, rb, bb) == BorderOf(kind, box);
    FramedBorder(kind, box, r);
    hide BorderOf, VParts, HParts, TitleParts, Box.XInc, Box.YInc;
    if type_ == WcBorder {
      lb, tb, rb, bb := -lb, -tb, -rb, -bb;
    }
    o := Rect(r.x + lb, r.y + tb, r.w - lb - rb, r.h - tb - bb);
  }

  /** wm_calc's two directions undo each other. */
  lemma CalcRoundTrip(k: Kind, box: Box, r: Rect)
    ensures Shrunk(Enlarged(r, BorderOf(k, box)), BorderOf(k, box)) == r
    ensures Enlarged(Shrunk(r, BorderOf(k, box)), BorderOf(k, box)) == r
  {
  }

  // ---- minimum size ----

  lemma OptOf()
    ensures forall x :: Opt(true, x) == x && Opt(false, x) == 0
  {
  }

  // The height that the elements of the vertical bar need.
  function BarHeight(k: Kind, box: Box): int {
    var y := box.YInc();
    var v := 1 + Opt(k.upArrow, y) + Opt(k.dnArrow, y) + Opt(k.vSlide, y)
      + Opt(k.sizer && (VParts(k) || !HParts(k)), y);
    Max(v, 1 + Opt(HParts(k), y))
  }

  function TitleWidth(k: Kind, box: Box): int {
    1 + Opt(k.name, box.XInc()) + Opt(k.closer, box.XInc()) + Opt(k.fuller, box.XInc())
  }

  function TitleHeight(k: Kind, box: Box): int {
    1 + Opt(TitleParts(k), box.YInc()) + Opt(k.info, box.YInc()) + Opt(k.menuBar, box.YInc())
  }

  function RowWidth(k: Kind, box: Box): int {
    1 + Opt(k.lfArrow, box.XInc()) + Opt(k.rtArrow, box.XInc()) + Opt(k.hSlide, box.XInc())
    + Opt(k.sizer && !VParts(k) && HParts(k), box.XInc())
  }

  function MinSize(k: Kind, box: Box): (int, int) {
    (Max(TitleWidth(k, box) + 1 + Opt(VParts(k) || (k.sizer && !HParts(k)), box.XInc()), RowWidth(k, box)),
     BarHeight(k, box) + TitleHeight(k, box))
  }

  // wm_min, the part above the work area.
  method TitleMin(kind: Kind, box: Box) returns (w1: int, h1: int)
    ensures w1 == TitleWidth(kind, box) && h1 == TitleHeight(kind, box)
  {
    w1, h1 := 1, 1;
    var xinc, yinc := box.w + 2 * ADJ3DPIX, box.h + 2 * ADJ3DPIX;
    if kind.name || kind.closer || kind.fuller {
      h1 := h1 + yinc;
      if kind.name {
        w1 := w1 + xinc;
      }
      if kind.closer {
        w1 := w1 + xinc;
      }
      if kind.fuller {
        w1 := w1 + xinc;
      }
    }
    if kind.info {
      h1 := h1 + yinc;
    }
    if kind.menuBar {
      h1 := h1 + yinc;
    }
  }

  // wm_min, the bars at the right and at the bottom.
  method BarMin(kind: Kind, box: Box) returns (w2: int, w3: int, h2: int)
    ensures w2 == 1 + Opt(VParts(kind) || (kind.sizer && !HParts(kind)), box.XInc())
    ensures w3 == RowWidth(kind, box) && h2 == BarHeight(kind, box)
  {
    hide Opt;
    OptOf();
    var h3 := 1;
    w2, w3, h2 := 1, 1, 1;
    var xinc, yinc := box.w + 2 * ADJ3DPIX, box.h + 2 * ADJ3DPIX;
    var lvparts := kind.upArrow || kind.dnArrow || kind.vSlide;
    var lhparts := kind.lfArrow || kind.rtArrow || kind.hSlide;
    if lvparts {
      w2 := w2 + xinc;
    }
    if lhparts {
      h3 := h3 + yinc;
    }
    if kind.upArrow {
      h2 := h2 + yinc;
    }
    if kind.dnArrow {
      h2 := h2 + yinc;
    }
    if kind.vSlide {
      h2 := h2 + yinc;
    }
    if kind.lfArrow {
      w3 := w3 + xinc;
    }
    if kind.rtArrow {
      w3 := w3 + xinc;
    }
    if kind.hSlide {
      w3 := w3 + xinc;
    }
    assert h2 == 1 + Opt(kind.upArrow, yinc) + Opt(kind.dnArrow, yinc) + Opt(kind.vSlide, yinc);
    assert w3 == 1 + Opt(kind.lfArrow, xinc) + Opt(kind.rtArrow, xinc) + Opt(kind.hSlide, xinc);
    ghost var h2', w3' := h2, w3;
    if kind.sizer {
      if !lvparts && !lhparts {
        w2 := w2 + xinc;
        h2 := h2 + yinc;
      }
      if lvparts {
        h2 := h2 + yinc;
      }
      if !lvparts && lhparts {
        w3 := w3 + xinc;
      }
    }
    assert h2 == h2' + Opt(kind.sizer && (VParts(kind) || !HParts(kind)), yinc);
    assert w3 == w3' + Opt(kind.sizer && !VParts(kind) && HParts(kind), xinc);
    assert h3 == 1 + Opt(HParts(kind), yinc);
    h2 := Max(h2, h3);
  }

  lemma MinSizeIs(k: Kind, box: Box)
    ensures
      var x, y := box.w + 4, box.h + 4;
      var vbar, hbar := k.upArrow || k.dnArrow || k.vSlide, k.lfArrow || k.rtArrow || k.hSlide;
      var title := 2 + Opt(k.name, x) + Opt(k.closer, x) + Opt(k.fuller, x) + Opt(vbar || (k.sizer && !hbar), x);
      var row := 1 + Opt(k.lfArrow, x) + Opt(k.rtArrow, x) + Opt(k.hSlide, x) + Opt(k.sizer && hbar && !vbar, x);
      var head := 1 + Opt(k.name || k.closer || k.fuller, y) + Opt(k.info, y) + Opt(k.menuBar, y);
      var column := 1 + Opt(k.upArrow, y) + Opt(k.dnArrow, y) + Opt(k.vSlide, y) + Opt(k.sizer && (vbar || !hbar), y);
      MinSize(k, box) == (Max(title, row), head + Max(column, 1 + Opt(hbar, y)))
  {
    hide Opt;
  }

  /** wm_min: the space for the parts, row by row and column by column, is enough for them. */
  method WmMin(kind: Kind, box: Box) returns (ow: int, oh: int)
    ensures (ow, oh) == MinSize(kind, box)
    ensures
      var x, y := box.w + 4, box.h + 4;
      var vbar, hbar := kind.upArrow || kind.dnArrow || kind.vSlide, kind.lfArrow || kind.rtArrow || kind.hSlide;
      var title := 2 + Opt(kind.name, x) + Opt(kind.closer, x) + Opt(kind.fuller, x)
        + Opt(vbar || (kind.sizer && !hbar), x);
      var row := 1 + Opt(kind.lfArrow, x) + Opt(kind.rtArrow, x) + Opt(kind.hSlide, x)
        + Opt(kind.sizer && hbar && !vbar, x);
      var head := 1 + Opt(kind.name || kind.closer || kind.fuller, y) + Opt(kind.info, y) + Opt(kind.menuBar, y);
      var column := 1 + Opt(kind.upArrow, y) + Opt(kind.dnArrow, y) + Opt(kind.vSlide, y)
        + Opt(kind.sizer && (vbar || !hbar), y);
      ow == Max(title, row) && oh == head + Max(column, 1 + Opt(hbar, y))
    ensures box.Valid() ==> forall r: Rect :: r.w >= ow && r.h >= oh ==>
      WorkOf(kind, box, r).w >= 0 && WorkOf(kind, box, r).h >= 0
  {
    if box.Valid() {
      forall r: Rect | r.w >= MinSize(kind, box).0 && r.h >= MinSize(kind, box).1
        ensures WorkOf(kind, box, r).w >= 0 && WorkOf(kind, box, r).h >= 0
      {
        MinSizeFits(kind, box, r);
      }
    }
    MinSizeIs(kind, box);
    hide TitleWidth, TitleHeight, RowWidth, BarHeight, Opt;
    var w1, h1 := TitleMin(kind, box);
    var w2, w3, h2 := BarMin(kind, box);
    ow := Max(w1 + w2, w3);
    oh := h2 + h1;
  }

  // ---- w_adjust ----

  // The work area w_adjust computes when the size changes.
  function AdjustedWork(k: Kind, box: Box, r: Rect): Rect {
    var top := (if TitleParts(k) || k.mover then box.YInc() else 0) + (if k.info then box.h else 0)
               + (if k.menuBar then box.YInc() else 0);
    var b := BorderOf(k, box);
    Shrunk(r, b.(top := if top == 0 then 1 else top))
  }

  // w_adjust, as far as the three rectangles of the window go.
  function Adjusted(w: Window, box: Box, r: Rect): Window {
    w.(
      prev := w.curr, curr := r,
      work := if r.w == w.curr.w && r.h == w.curr.h
              then w.work.(x := w.work.x - (w.curr.x - r.x), y := w.work.y - (w.curr.y - r.y))
              else AdjustedWork(w.kind, box, r)
    )
  }

  lemma AdjustedFrame(w: Window, box: Box, rect: Rect)
    requires box.Valid()
    ensures
      var w' := Adjusted(w, box, rect);
      && w' == w.(curr := rect, prev := w.curr, work := w'.work)
      && if rect.w == w.curr.w && rect.h == w.curr.h then
           w'.work == w.work.(x := w.work.x + rect.x - w.curr.x, y := w.work.y + rect.y - w.curr.y)
         else Framed(w.kind.(name := w.kind.name || w.kind.mover), box, w'.work, rect)
  {
  }

  /** w_adjust: a window that is only moved takes its work area along; else a mover bar counts as a title. */
  method WAdjust(w: Window, box: Box, rect: Rect) returns (w': Window)
    requires box.Valid()
    ensures w' == Adjusted(w, box, rect)
    ensures w' == w.(curr := rect, prev := w.curr, work := w'.work)
    ensures rect.w == w.curr.w && rect.h == w.curr.h ==>
      w'.work == w.work.(x := w.work.x + rect.x - w.curr.x, y := w.work.y + rect.y - w.curr.y)
    ensures rect.w != w.curr.w || rect.h != w.curr.h ==>
      Framed(w.kind.(name := w.kind.name || w.kind.mover), box, w'.work, rect)
  {
    AdjustedFrame(w, box, rect);
    hide Framed;
    w' := w.(prev := w.curr, curr := rect);
    if rect.w == w'.prev.w && rect.h == w'.prev.h {
      w' := w'.(work := w'.work.(x := w'.work.x - (w'.prev.x - rect.x), y := w'.work.y - (w'.prev.y - rect.y)));
      return;
    }
    var uly, ury, lly, urx := 0, 0, 0, 0;
    var inx, iny := box.w + 2 * ADJ3DPIX, box.h + 2 * ADJ3DPIX;
    if w.kind.name || w.kind.closer || w.kind.fuller || w.kind.mover {
      uly, ury := iny, iny;
    }
    if w.kind.info {
      ury := ury + box.h;
      uly := ury;
    }
    if w.kind.menuBar {
      ury := ury + iny;
      uly := ury;
    }
    var hparts := w.kind.lfArrow || w.kind.rtArrow || w.kind.hSlide;
    var vparts := w.kind.upArrow || w.kind.dnArrow || w.kind.vSlide;
    if w.kind.sizer && !hparts && !vparts {
      urx := inx;
    }
    if vparts {
      urx := inx;
    }
    if hparts {
      lly := iny;
    }
    if uly == 0 {
      uly := 1;
    }
    if lly == 0 {
      lly := 1;
    }
    if urx == 0 {
      urx := 1;
    }
    w' := w'.(work := Rect(rect.x + 1, rect.y + uly, rect.w - urx - 1, rect.h - uly - lly));
  }

  /** The two ways to find a work area agree exactly when the mover bar is not the only title part. */
  lemma WorkAgreesIff(k: Kind, box: Box, r: Rect)
    requires box.Valid()
    ensures AdjustedWork(k, box, r) == WorkOf(k, box, r) <==> !MoverOnly(k)
  {
  }

  // What every step keeps: the work area is the one wm_calc gives, unless the window has no size yet.
  predicate WorkMatches(w: Window, box: Box) {
    || w.work == WorkOf(w.kind, box, w.curr)
    || (!w.isOpen && w.curr.w == 0 && w.curr.h == 0)
  }

  /** w_adjust keeps work areas right, through its move-only shortcut as well. */
  lemma AdjustKeepsWork(w: Window, box: Box, r: Rect)
    requires box.Valid() && !MoverOnly(w.kind) && WorkMatches(w, box)
    ensures WorkMatches(Adjusted(w, box, r), box)
    ensures r.w != 0 || r.h != 0 ==> Adjusted(w, box, r).work == WorkOf(w.kind, box, r)
  {
    WorkAgreesIff(w.kind, box, r);
  }

  // A rectangle brought up to the minimum size of the window's kind, as wm_open does.
  function AtLeastMin(k: Kind, box: Box, r: Rect): Rect {
    var (w, h) := MinSize(k, box);
    r.(w := Max(w, r.w), h := Max(h, r.h))
  }

  /** The minimum size leaves room for the border. */
  lemma MinSizeFits(k: Kind, box: Box, r: Rect)
    requires box.Valid()
    ensures AtLeastMin(k, box, r).w >= 2 && AtLeastMin(k, box, r).h >= 2
    ensures WorkOf(k, box, AtLeastMin(k, box, r)).w >= 0 && WorkOf(k, box, AtLeastMin(k, box, r)).h >= 0
  {
  }

  /**
   The work area w_adjust lays out for a window of at least the minimum size is never of negative width. Its height is
   negative exactly if the mover bar is the only title part and the window is lower than the strips above and below; at
   the minimum size, if the bars at the right do not happen to be tall enough.
   */
  lemma MinWorkIff(k: Kind, box: Box, r: Rect)
    requires box.Valid()
    ensures AdjustedWork(k, box, AtLeastMin(k, box, r)).w >= 0
    ensures !MoverOnly(k) ==> AdjustedWork(k, box, AtLeastMin(k, box, r)).h >= 0
    ensures
      var upper := box.YInc() + (if k.info then box.h else 0) + (if k.menuBar then box.YInc() else 0);
      var lower := if HParts(k) then box.YInc() else 1;
      MoverOnly(k) ==> (AdjustedWork(k, box, AtLeastMin(k, box, r)).h >= 0 <==>
        AtLeastMin(k, box, r).h >= upper + lower)
    ensures MoverOnly(k) && r.h <= MinSize(k, box).1 ==>
      (AdjustedWork(k, box, AtLeastMin(k, box, r)).h >= 0 <==>
        BarHeight(k, box) + 1 + (if k.info then 2 * ADJ3DPIX else 0)
        >= box.YInc() + (if HParts(k) then box.YInc() else 1))
  {
  }

  /** A window with nothing but a mover bar gets a work area of negative height. */
  lemma MoverOnlyTooSmall(box: Box)
    requires box.Valid()
    ensures exists k, r :: MoverOnly(k) && AdjustedWork(k, box, AtLeastMin(k, box, r)).h < 0
  {
    var k := Kind(false, false, false, true, false, false, false, false, false, false, false, false, false);
    var r := Rect(0, 0, 0, 0);
    assert MoverOnly(k) && AdjustedWork(k, box, AtLeastMin(k, box, r)).h < 0;
  }
}
