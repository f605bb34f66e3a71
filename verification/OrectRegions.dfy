/** What a run of newrect over all windows leaves on their lists, as values, and what that means on the screen. */
module OrectRegions {
  import opened Chains
  import opened Geometry
  import opened RectArena

  // The order in which everyobj meets the windows of the flat window tree.
  ghost predicate WindowOrder(order: seq<nat>, n: nat) {
    (forall i :: 0 <= i < |order| ==> order[i] < n) && forall i, j :: 0 <= i < j < |order| ==> order[i] != order[j]
  }

  datatype Regions = Regions(shows: seq<seq<Rect>>, broken: seq<bool>)

  ghost function Cut(st: Regions, t: Rect, w: nat): Regions
    requires w < |st.shows| == |st.broken|
  {
    Regions(st.shows[w := CutList(t, st.shows[w])], st.broken[w := st.broken[w] || Touches(t, st.shows[w])])
  }

  ghost function CutEach(st: Regions, t: Rect, ws: seq<nat>): (r: Regions)
    requires |st.shows| == |st.broken| && forall i :: 0 <= i < |ws| ==> ws[i] < |st.shows|
    ensures |r.shows| == |r.broken| == |st.shows|
  {
    if ws == [] then st else Cut(CutEach(st, t, ws[..|ws| - 1]), t, ws[|ws| - 1])
  }

  // One call of newrect.
  ghost function Redone(st: Regions, order: seq<nat>, i: nat, trues: seq<Rect>): Regions
    requires WindowOrder(order, |st.shows|) && i < |order| && |trues| == |st.shows| == |st.broken|
  {
    var w := order[i];
    var cleared := Regions(st.shows[w := []], st.broken[w := false]);
    if trues[w].w == 0 || trues[w].h == 0 then cleared
    else
      var cut := CutEach(cleared, trues[w], order[..i]);
      Regions(cut.shows[w := [trues[w]]], cut.broken)
  }

  lemma {:induction false} CutEachOther(st: Regions, t: Rect, ws: seq<nat>, v: nat)
    requires |st.shows| == |st.broken| && (forall i :: 0 <= i < |ws| ==> ws[i] < |st.shows|) && v < |st.shows|
    requires forall i :: 0 <= i < |ws| ==> ws[i] != v
    ensures CutEach(st, t, ws).shows[v] == st.shows[v] && CutEach(st, t, ws).broken[v] == st.broken[v]
  {
    if ws != [] {
      CutEachOther(st, t, ws[..|ws| - 1], v);
    }
  }

  lemma {:induction false} CutEachAt(st: Regions, t: Rect, ws: seq<nat>, k: nat)
    requires |st.shows| == |st.broken| && WindowOrder(ws, |st.shows|) && k < |ws|
    ensures CutEach(st, t, ws).shows[ws[k]] == CutList(t, st.shows[ws[k]])
    ensures CutEach(st, t, ws).broken[ws[k]] == (st.broken[ws[k]] || Touches(t, st.shows[ws[k]]))
  {
    if k == |ws| - 1 {
      CutEachOther(st, t, ws[..k], ws[k]);
    } else {
      CutEachAt(st, t, ws[..|ws| - 1], k);
    }
  }

  // The rectangles of the windows at positions lo..hi of the order that have a size.
  ghost function Sized(order: seq<nat>, trues: seq<Rect>, lo: nat, hi: nat): seq<Rect>
    requires WindowOrder(order, |trues|) && lo <= hi <= |order|
  {
    if lo == hi then []
    else
      var t := trues[order[hi - 1]];
      Sized(order, trues, lo, hi - 1) + if t.w == 0 || t.h == 0 then [] else [t]
  }

  // What is left of the window at position a after the windows up to position i have been dealt with.
  ghost function RegionOf(order: seq<nat>, trues: seq<Rect>, a: nat, i: nat): seq<Rect>
    requires WindowOrder(order, |trues|) && a < i <= |order|
  {
    var t := trues[order[a]];
    if t.w == 0 || t.h == 0 then [] else CutAll([t], Sized(order, trues, a + 1, i))
  }

  // Has any of them cut it?
  ghost predicate Spoiled(order: seq<nat>, trues: seq<Rect>, a: nat, i: nat)
    requires WindowOrder(order, |trues|) && a < i <= |order|
    decreases i
  {
    && i > a + 1
    && var t := trues[order[i - 1]];
       (Spoiled(order, trues, a, i - 1) || (t.w != 0 && t.h != 0 && Touches(t, RegionOf(order, trues, a, i - 1))))
  }

  ghost predicate Done(st: Regions, now: Regions, order: seq<nat>, trues: seq<Rect>, i: nat) {
    && |st.shows| == |st.broken| == |now.shows| == |now.broken| == |trues|
    && WindowOrder(order, |trues|) && i <= |order|
    && (forall a :: 0 <= a < i ==> now.shows[order[a]] == RegionOf(order, trues, a, i))
    && (forall a :: 0 <= a < i ==> now.broken[order[a]] == Spoiled(order, trues, a, i))
    && forall v :: 0 <= v < |st.shows| && v !in order[..i] ==>
      now.shows[v] == st.shows[v] && now.broken[v] == st.broken[v]
  }

  lemma RedoneEarlier(now: Regions, order: seq<nat>, trues: seq<Rect>, i: nat, a: nat)
    requires a < i < |order| && WindowOrder(order, |trues|) && |trues| == |now.shows| == |now.broken|
    requires now.shows[order[a]] == RegionOf(order, trues, a, i) && now.broken[order[a]] == Spoiled(order, trues, a, i)
    ensures Redone(now, order, i, trues).shows[order[a]] == RegionOf(order, trues, a, i + 1)
    ensures Redone(now, order, i, trues).broken[order[a]] == Spoiled(order, trues, a, i + 1)
  {
    var w := order[i];
    var t := trues[w];
    var cleared := Regions(now.shows[w := []], now.broken[w := false]);
    assert w != order[a];
    if t.w != 0 && t.h != 0 {
      assert WindowOrder(order[..i], |trues|);
      CutEachAt(cleared, t, order[..i], a);
      CutRegion(order, trues, a, i);
    } else {
      assert Sized(order, trues, a + 1, i + 1) == Sized(order, trues, a + 1, i);
    }
  }

  lemma RedoneOther(now: Regions, order: seq<nat>, trues: seq<Rect>, i: nat, v: nat)
    requires i < |order| && WindowOrder(order, |trues|) && |trues| == |now.shows| == |now.broken|
    requires v < |trues| && v !in order[..i + 1]
    ensures v !in order[..i]
    ensures Redone(now, order, i, trues).shows[v] == now.shows[v]
    ensures Redone(now, order, i, trues).broken[v] == now.broken[v]
  {
    var t := trues[order[i]];
    assert order[..i + 1] == order[..i] + [order[i]];
    assert forall k :: 0 <= k < i ==> order[..i][k] in order[..i];
    if t.w != 0 && t.h != 0 {
      CutEachOther(Regions(now.shows[order[i] := []], now.broken[order[i] := false]), t, order[..i], v);
    }
  }

  lemma RedoneItself(now: Regions, order: seq<nat>, trues: seq<Rect>, i: nat)
    requires i < |order| && WindowOrder(order, |trues|) && |trues| == |now.shows| == |now.broken|
    ensures Redone(now, order, i, trues).shows[order[i]] == RegionOf(order, trues, i, i + 1)
    ensures Redone(now, order, i, trues).broken[order[i]] == Spoiled(order, trues, i, i + 1)
  {
    var t := trues[order[i]];
    if t.w != 0 && t.h != 0 {
      CutEachOther(Regions(now.shows[order[i] := []], now.broken[order[i] := false]), t, order[..i], order[i]);
    }
  }

  /** One call of newrect brings every list up to date with one more window. */
  lemma RedoneDone(st: Regions, now: Regions, order: seq<nat>, trues: seq<Rect>, i: nat)
    requires i < |order| && Done(st, now, order, trues, i)
    ensures Done(st, Redone(now, order, i, trues), order, trues, i + 1)
  {
    RedoneItself(now, order, trues, i);
    forall a | 0 <= a < i
      ensures Redone(now, order, i, trues).shows[order[a]] == RegionOf(order, trues, a, i + 1)
      ensures Redone(now, order, i, trues).broken[order[a]] == Spoiled(order, trues, a, i + 1)
    {
      RedoneEarlier(now, order, trues, i, a);
    }
    forall v | 0 <= v < |st.shows| && v !in order[..i + 1]
      ensures v !in order[..i]
      ensures Redone(now, order, i, trues).shows[v] == now.shows[v]
      ensures Redone(now, order, i, trues).broken[v] == now.broken[v]
    {
      RedoneOther(now, order, trues, i, v);
    }
  }

  lemma CutRegion(order: seq<nat>, trues: seq<Rect>, a: nat, i: nat)
    requires WindowOrder(order, |trues|) && a < i < |order|
    requires trues[order[i]].w != 0 && trues[order[i]].h != 0
    ensures CutList(trues[order[i]], RegionOf(order, trues, a, i)) == RegionOf(order, trues, a, i + 1)
  {
    var t, above := trues[order[i]], Sized(order, trues, a + 1, i);
    assert Sized(order, trues, a + 1, i + 1) == above + [t];
    assert (above + [t])[..|above|] == above;
  }

  // Does t overlap any rectangle of the list?
  predicate Touches(t: Rect, rs: seq<Rect>) {
    exists i :: 0 <= i < |rs| && Overlaps(t, rs[i])
  }

  lemma TouchesStep(t: Rect, rs: seq<Rect>, m: nat)
    requires m <= |rs|
    ensures m == 0 ==> !Touches(t, rs[..m])
    ensures m < |rs| ==> (Touches(t, rs[..m + 1]) <==> Touches(t, rs[..m]) || Overlaps(t, rs[m]))
  {
    if m < |rs| {
      assert rs[..m + 1] == rs[..m] + [rs[m]];
      if Touches(t, rs[..m]) {
        var i :| 0 <= i < m && Overlaps(t, rs[..m][i]);
        assert Overlaps(t, rs[..m + 1][i]);
      }
      if Overlaps(t, rs[m]) {
        assert Overlaps(t, rs[..m + 1][m]);
      }
    }
  }

  lemma NotBroken(t: Rect, rs: seq<Rect>, d: nat)
    requires d < |rs| && !Overlaps(t, rs[d])
    ensures |CutOne(t, rs[d])| == 1 && rs[..d] + CutOne(t, rs[d]) + rs[d + 1..] == rs
  {
  }

  // The list of rectangles with new ones in front of position k.
  function Opened(rs: seq<Rect>, k: nat, ps: seq<Rect>): seq<Rect>
    requires k <= |rs|
  {
    rs[..k] + ps + rs[k..]
  }

  lemma OpenedStart(rs: seq<Rect>, k: nat)
    requires k <= |rs|
    ensures Opened(rs, k, []) == rs
  {
  }

  lemma OpenedStep(rs: seq<Rect>, k: nat, ps: seq<Rect>, r: Rect)
    requires k < |rs|
    ensures Inserted(Opened(rs, k, ps), k + |ps|, r) == Opened(rs, k, ps + [r])
    ensures Opened(rs, k, ps)[k + |ps|] == rs[k]
  {
  }

  lemma PiecesStep(t: Rect, b: Rect, i: nat)
    requires i < |ORDER|
    ensures Pieces(t, b, 0) == []
    ensures Pieces(t, b, i + 1) ==
      if SticksOut(ORDER[i], t, b) then Pieces(t, b, i) + [Piece(ORDER[i], t, b)] else Pieces(t, b, i)
  {
  }

  lemma TailWithout(c: seq<int>, k: nat, d: seq<int>, k': nat)
    requires k < |c| && k' < |d| && d[k'..] == c[k..]
    ensures d[k'] == c[k] && Without(d, k')[k'..] == c[k + 1..]
    ensures |Without(d, k')| == |d| - 1 && (k' > 0 ==> Without(d, k')[k' - 1] == d[k' - 1])
  {
    assert d[k'..][0] == c[k..][0];
    assert Without(d, k')[k'..] == d[k'..][1..];
    assert c[k + 1..] == c[k..][1..];
  }

  lemma InsertedTail(c: seq<int>, k: nat, e: int)
    requires k <= |c|
    ensures Inserted(c, k, e)[k + 1..] == c[k..] && Inserted(c, k, e)[k] == e
  {
  }

  lemma BrokenUp(rs: seq<Rect>, k: nat, ps: seq<Rect>)
    requires k < |rs|
    ensures Without(Opened(rs, k, ps), k + |ps|) == rs[..k] + ps + rs[k + 1..]
  {
  }

  // ---- what the lists mean once every window has been dealt with ----

  // Windows that all have a size, in their order.
  lemma {:induction false} SizedAll(order: seq<nat>, trues: seq<Rect>, lo: nat, hi: nat)
    requires WindowOrder(order, |trues|) && lo <= hi <= |order|
    requires forall j :: lo <= j < hi ==> trues[order[j]].w != 0 && trues[order[j]].h != 0
    ensures |Sized(order, trues, lo, hi)| == hi - lo
    ensures forall j :: lo <= j < hi ==> Sized(order, trues, lo, hi)[j - lo] == trues[order[j]]
  {
    if lo < hi {
      SizedAll(order, trues, lo, hi - 1);
    }
  }

  // A rectangle that newrect passes over or that has pixels.
  predicate Drawable(t: Rect) { t.w == 0 || t.h == 0 || Solid(t) }

  /** When all windows have a size, a list is what the newer lists are before merging, made from the same rectangles. */
  lemma SameAsNewer(order: seq<nat>, trues: seq<Rect>, a: nat)
    requires WindowOrder(order, |trues|) && a < |order|
    requires forall j :: a <= j < |order| ==> trues[order[j]].w != 0 && trues[order[j]].h != 0
    ensures
      var later := seq(|order| - a - 1, j requires 0 <= j < |order| - a - 1 => trues[order[a + 1 + j]]);
      RegionOf(order, trues, a, |order|) == CutAll([trues[order[a]]], later)
  {
    var later := seq(|order| - a - 1, j requires 0 <= j < |order| - a - 1 => trues[order[a + 1 + j]]);
    SizedAll(order, trues, a + 1, |order|);
    var sized := Sized(order, trues, a + 1, |order|);
    forall j | 0 <= j < |later|
      ensures sized[j] == later[j]
    {
      assert sized[(a + 1 + j) - (a + 1)] == trues[order[a + 1 + j]];
    }
    assert sized == later;
  }

  // Some window at positions lo..hi of the order contains the pixel.
  ghost predicate HitIn(order: seq<nat>, trues: seq<Rect>, lo: nat, hi: nat, px: int, py: int)
    requires WindowOrder(order, |trues|) && lo <= hi <= |order|
  {
    exists j :: lo <= j < hi && Contains(trues[order[j]], px, py)
  }

  lemma HitInStep(order: seq<nat>, trues: seq<Rect>, lo: nat, hi: nat, px: int, py: int)
    requires WindowOrder(order, |trues|) && lo < hi <= |order|
    ensures HitIn(order, trues, lo, hi, px, py)
       <==> HitIn(order, trues, lo, hi - 1, px, py) || Contains(trues[order[hi - 1]], px, py)
  {
  }

  lemma {:induction false} SizedHides(order: seq<nat>, trues: seq<Rect>, lo: nat, hi: nat, px: int, py: int)
    requires WindowOrder(order, |trues|) && lo <= hi <= |order|
    ensures Hidden(Sized(order, trues, lo, hi), px, py) <==> HitIn(order, trues, lo, hi, px, py)
  {
    if lo < hi {
      var t, rest := trues[order[hi - 1]], Sized(order, trues, lo, hi - 1);
      SizedHides(order, trues, lo, hi - 1, px, py);
      HitInStep(order, trues, lo, hi, px, py);
      HiddenAppend(rest, t, px, py);
      SizedStep(order, trues, lo, hi);
      hide Sized, Hidden, HitIn;
    }
  }

  lemma SizedStep(order: seq<nat>, trues: seq<Rect>, lo: nat, hi: nat)
    requires WindowOrder(order, |trues|) && lo < hi <= |order|
    ensures
      var t, rest := trues[order[hi - 1]], Sized(order, trues, lo, hi - 1);
      Sized(order, trues, lo, hi) == if t.w == 0 || t.h == 0 then rest else rest + [t]
  {
  }

  lemma {:induction false} SizedSolid(order: seq<nat>, trues: seq<Rect>, lo: nat, hi: nat)
    requires WindowOrder(order, |trues|) && lo <= hi <= |order|
    requires forall j :: lo <= j < hi ==> Drawable(trues[order[j]])
    ensures AllSolid(Sized(order, trues, lo, hi))
  {
    if lo < hi {
      SizedSolid(order, trues, lo, hi - 1);
    }
  }

  // The window at position a shows the pixel: it is the last in the order whose true rectangle contains it.
  predicate OwnsPixel(order: seq<nat>, trues: seq<Rect>, a: nat, px: int, py: int)
    requires WindowOrder(order, |trues|) && a < |order|
  {
    Contains(trues[order[a]], px, py) && forall j :: a < j < |order| ==> !Contains(trues[order[j]], px, py)
  }

  /**
   The lists partition the screen: a pixel lies in exactly one rectangle of the window that owns it, and in none of
   any other window.
   */
  lemma ScreenPartition(order: seq<nat>, trues: seq<Rect>, a: nat, px: int, py: int)
    requires WindowOrder(order, |trues|) && a < |order|
    requires forall j :: 0 <= j < |order| ==> Drawable(trues[order[j]])
    ensures Cover(RegionOf(order, trues, a, |order|), px, py) == if OwnsPixel(order, trues, a, px, py) then 1 else 0
  {
    RegionPixels(order, trues, a, |order|);
    assert OwnsPixel(order, trues, a, px, py)
      <==> Contains(trues[order[a]], px, py) && !HitIn(order, trues, a + 1, |order|, px, py);
  }

  /** With any other rectangle on top, some window is cut wrongly. */
  lemma PartitionIffDrawable(t: Rect)
    ensures Drawable(t) <==> forall b :: Solid(b) ==> CutRight(b, t)
  {
    if Drawable(t) {
      forall b | Solid(b)
        ensures CutRight(b, t)
      {
        forall px, py
          ensures Cover(RegionOf([0, 1], [b, t], 0, 2), px, py) == if OwnsPixel([0, 1], [b, t], 0, px, py) then 1 else 0
        {
          ScreenPartition([0, 1], [b, t], 0, px, py);
        }
      }
    } else {
      ImproperCut(t);
      var b :| Solid(b) && !CutsExactly(t, b);
      var px, py :| Cover(CutOne(t, b), px, py) != if Contains(b, px, py) && !Contains(t, px, py) then 1 else 0;
      TwoWindows(b, t);
      assert OwnsPixel([0, 1], [b, t], 0, px, py) <==> Contains(b, px, py) && !Contains(t, px, py);
      assert !CutRight(b, t);
    }
  }

  // Of two windows, the lower one, b, shows exactly what it owns.
  ghost predicate CutRight(b: Rect, t: Rect) {
    forall px, py ::
      Cover(RegionOf([0, 1], [b, t], 0, 2), px, py) == if OwnsPixel([0, 1], [b, t], 0, px, py) then 1 else 0
  }

  lemma TwoWindows(b: Rect, t: Rect)
    requires Solid(b) && t.w != 0 && t.h != 0
    ensures RegionOf([0, 1], [b, t], 0, 2) == CutOne(t, b)
  {
    assert Sized([0, 1], [b, t], 1, 1) == [];
    assert Sized([0, 1], [b, t], 1, 2) == [t];
    assert CutAll([b], []) == [b] && CutAll([b], [t]) == CutList(t, [b]);
    assert CutList(t, []) == [] && CutList(t, [b]) == CutOne(t, b);
  }

  /** Every pixel of any window has exactly one owner. */
  lemma {:induction false} PixelOwner(order: seq<nat>, trues: seq<Rect>, n: nat, px: int, py: int)
    requires WindowOrder(order, |trues|) && n <= |order|
    requires forall j :: n <= j < |order| ==> !Contains(trues[order[j]], px, py)
    ensures (exists a :: 0 <= a < |order| && OwnsPixel(order, trues, a, px, py))
       <==> exists j :: 0 <= j < |order| && Contains(trues[order[j]], px, py)
    ensures forall a, b :: 0 <= a < b < |order| && OwnsPixel(order, trues, a, px, py) ==>
      !OwnsPixel(order, trues, b, px, py)
  {
    if n > 0 {
      if Contains(trues[order[n - 1]], px, py) {
        assert OwnsPixel(order, trues, n - 1, px, py);
      } else {
        PixelOwner(order, trues, n - 1, px, py);
      }
    }
  }

  // Some window between positions a and i shares a pixel with the window at position a.
  ghost predicate SharesPixel(order: seq<nat>, trues: seq<Rect>, a: nat, i: nat)
    requires WindowOrder(order, |trues|) && a < i <= |order|
  {
    exists px, py :: Contains(trues[order[a]], px, py) && HitIn(order, trues, a + 1, i, px, py)
  }

  /** VF_BROKEN tells exactly whether some later window hides a pixel of the window. */
  lemma {:induction false} SpoiledIffHidden(order: seq<nat>, trues: seq<Rect>, a: nat, i: nat)
    requires WindowOrder(order, |trues|) && a < i <= |order|
    requires forall j :: 0 <= j < |order| ==> Drawable(trues[order[j]])
    ensures Spoiled(order, trues, a, i) <==> SharesPixel(order, trues, a, i)
    decreases i
  {
    if i > a + 1 {
      SpoiledIffHidden(order, trues, a, i - 1);
      if Spoiled(order, trues, a, i) {
        SpoiledShares(order, trues, a, i);
      }
      if SharesPixel(order, trues, a, i) {
        SharesSpoiled(order, trues, a, i);
      }
    }
  }

  lemma SpoiledUnfold(order: seq<nat>, trues: seq<Rect>, a: nat, i: nat)
    requires WindowOrder(order, |trues|) && a + 1 < i <= |order|
    ensures Spoiled(order, trues, a, i) <==>
      Spoiled(order, trues, a, i - 1)
      || (trues[order[i - 1]].w != 0 && trues[order[i - 1]].h != 0
          && Touches(trues[order[i - 1]], RegionOf(order, trues, a, i - 1)))
  {
  }

  lemma SharesPixelAt(order: seq<nat>, trues: seq<Rect>, a: nat, i: nat, px: int, py: int)
    requires WindowOrder(order, |trues|) && a < i <= |order|
    requires Contains(trues[order[a]], px, py) && HitIn(order, trues, a + 1, i, px, py)
    ensures SharesPixel(order, trues, a, i)
  {
  }

  lemma SharedPixel(order: seq<nat>, trues: seq<Rect>, a: nat, i: nat) returns (px: int, py: int)
    requires WindowOrder(order, |trues|) && a < i <= |order| && SharesPixel(order, trues, a, i)
    ensures Contains(trues[order[a]], px, py) && HitIn(order, trues, a + 1, i, px, py)
  {
    px, py :| Contains(trues[order[a]], px, py) && HitIn(order, trues, a + 1, i, px, py);
  }

  lemma SpoiledShares(order: seq<nat>, trues: seq<Rect>, a: nat, i: nat)
    requires WindowOrder(order, |trues|) && a + 1 < i <= |order|
    requires forall j :: 0 <= j < |order| ==> Drawable(trues[order[j]])
    requires Spoiled(order, trues, a, i) && (Spoiled(order, trues, a, i - 1) ==> SharesPixel(order, trues, a, i - 1))
    ensures SharesPixel(order, trues, a, i)
  {
    hide Spoiled, SharesPixel, RegionOf, HitIn, Touches;
    SpoiledUnfold(order, trues, a, i);
    var px, py;
    if Spoiled(order, trues, a, i - 1) {
      px, py := SharedPixel(order, trues, a, i - 1);
    } else {
      RegionPixels(order, trues, a, i - 1);
      px, py := TouchedPixel(trues[order[i - 1]], RegionOf(order, trues, a, i - 1));
    }
    HitInStep(order, trues, a + 1, i, px, py);
    SharesPixelAt(order, trues, a, i, px, py);
  }

  lemma TouchedPixel(t: Rect, rs: seq<Rect>) returns (px: int, py: int)
    requires AllSolid(rs) && Solid(t) && Touches(t, rs)
    ensures Contains(t, px, py) && Cover(rs, px, py) > 0
  {
    var k :| 0 <= k < |rs| && Overlaps(t, rs[k]);
    OverlapsIffPixel(t, rs[k]);
    px, py :| Contains(t, px, py) && Contains(rs[k], px, py);
    CoverLowerBound(rs, k, px, py);
  }

  lemma SharesSpoiled(order: seq<nat>, trues: seq<Rect>, a: nat, i: nat)
    requires WindowOrder(order, |trues|) && a + 1 < i <= |order|
    requires forall j :: 0 <= j < |order| ==> Drawable(trues[order[j]])
    requires SharesPixel(order, trues, a, i)
    requires SharesPixel(order, trues, a, i - 1) ==> Spoiled(order, trues, a, i - 1)
    ensures Spoiled(order, trues, a, i)
  {
    hide Spoiled, SharesPixel, RegionOf, HitIn, Touches;
    SpoiledUnfold(order, trues, a, i);
    var px, py := SharedPixel(order, trues, a, i);
    HitInStep(order, trues, a + 1, i, px, py);
    if HitIn(order, trues, a + 1, i - 1, px, py) {
      SharesPixelAt(order, trues, a, i - 1, px, py);
    } else {
      RegionPixels(order, trues, a, i - 1);
      SharedTouches(trues[order[i - 1]], RegionOf(order, trues, a, i - 1), px, py);
    }
  }

  lemma SharedTouches(t: Rect, rs: seq<Rect>, px: int, py: int)
    requires AllSolid(rs) && Cover(rs, px, py) > 0 && Contains(t, px, py)
    ensures Touches(t, rs)
  {
    CoverWitness(rs, px, py);
    var k :| 0 <= k < |rs| && Contains(rs[k], px, py);
    OverlapsIffPixel(t, rs[k]);
  }

  lemma RegionPixels(order: seq<nat>, trues: seq<Rect>, a: nat, i: nat)
    requires WindowOrder(order, |trues|) && a < i <= |order|
    requires forall j :: 0 <= j < |order| ==> Drawable(trues[order[j]])
    ensures AllSolid(RegionOf(order, trues, a, i))
    ensures forall px, py ::
      Cover(RegionOf(order, trues, a, i), px, py)
        == if Contains(trues[order[a]], px, py) && !HitIn(order, trues, a + 1, i, px, py) then 1 else 0
  {
    var t, tops := trues[order[a]], Sized(order, trues, a + 1, i);
    SizedSolid(order, trues, a + 1, i);
    forall px, py
      ensures Cover(RegionOf(order, trues, a, i), px, py)
           == if Contains(t, px, py) && !HitIn(order, trues, a + 1, i, px, py) then 1 else 0
    {
      SizedHides(order, trues, a + 1, i, px, py);
      if Solid(t) {
        VisibleExactly(t, tops, px, py);
      }
    }
    if Solid(t) {
      SolidCutAll([t], tops);
    }
  }
}
