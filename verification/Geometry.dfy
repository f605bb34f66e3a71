/** Screen rectangles as sets of pixels, and the cutting of a rectangle by one that lies above it. */
module Geometry {

  datatype Rect = Rect(x: int, y: int, w: int, h: int)

  // The order in which both rectangle-list builders look at the four pieces.
  datatype Side = Top | Left | Right | Bottom

  const ORDER: seq<Side> := [Top, Left, Right, Bottom]

  function Min(a: int, b: int): int { if a < b then a else b }

  function Max(a: int, b: int): int { if a > b then a else b }

  predicate Contains(r: Rect, px: int, py: int) {
    r.x <= px < r.x + r.w && r.y <= py < r.y + r.h
  }

  predicate Solid(r: Rect) {
    r.w > 0 && r.h > 0
  }

  ghost predicate AllSolid(rs: seq<Rect>) {
    forall i :: 0 <= i < |rs| ==> Solid(rs[i])
  }

  predicate Within(r: Rect, outer: Rect) {
    outer.x <= r.x && r.x + r.w <= outer.x + outer.w && outer.y <= r.y && r.y + r.h <= outer.y + outer.h
  }

  predicate Overlaps(t: Rect, b: Rect) {
    t.x < b.x + b.w && t.x + t.w > b.x && t.y < b.y + b.h && t.y + t.h > b.y
  }

  /** Two rectangles share a pixel exactly if neither is empty and the overlap test holds. */
  lemma OverlapsIffPixel(t: Rect, b: Rect)
    ensures Solid(t) && Solid(b) && Overlaps(t, b) <==> exists px, py :: Contains(t, px, py) && Contains(b, px, py)
  {
    if Solid(t) && Solid(b) && Overlaps(t, b) {
      assert Contains(t, Max(t.x, b.x), Max(t.y, b.y)) && Contains(b, Max(t.x, b.x), Max(t.y, b.y));
    }
  }

  // Does the part of b on side s stick out from under t?
  predicate SticksOut(s: Side, t: Rect, b: Rect) {
    match s
    case Top => t.y > b.y
    case Left => t.x > b.x
    case Right => t.x + t.w < b.x + b.w
    case Bottom => t.y + t.h < b.y + b.h
  }

  function Piece(s: Side, t: Rect, b: Rect): Rect {
    var y := Max(b.y, t.y);
    var common := Rect(b.x, y, b.w, Min(b.y + b.h, t.y + t.h) - y);
    match s
    case Top => common.(y := b.y, h := t.y - b.y)
    case Left => common.(w := t.x - b.x)
    case Right => common.(x := t.x + t.w, w := (b.x + b.w) - (t.x + t.w))
    case Bottom => common.(y := t.y + t.h, h := (b.y + b.h) - (t.y + t.h))
  }

  // The pieces for the first k sides of ORDER.
  function Pieces(t: Rect, b: Rect, k: nat): seq<Rect>
    requires k <= |ORDER|
  {
    if k == 0 then []
    else Pieces(t, b, k - 1) + if SticksOut(ORDER[k - 1], t, b) then [Piece(ORDER[k - 1], t, b)] else []
  }

  function CutOne(t: Rect, b: Rect): seq<Rect> {
    if Overlaps(t, b) then Pieces(t, b, |ORDER|) else [b]
  }

  // The piece of one side, if there is one.
  function PieceAt(s: Side, t: Rect, b: Rect): seq<Rect> {
    if SticksOut(s, t, b) then [Piece(s, t, b)] else []
  }

  /** The pieces in order: the whole width above, left and right at the height of t, the whole width below. */
  lemma PiecesAre(t: Rect, b: Rect)
    requires Overlaps(t, b)
    ensures CutOne(t, b) == PieceAt(Top, t, b) + PieceAt(Left, t, b) + PieceAt(Right, t, b) + PieceAt(Bottom, t, b)
    ensures
      var upper, lower := Max(b.y, t.y), Min(b.y + b.h, t.y + t.h);
      && PieceAt(Top, t, b) == (if t.y > b.y then [Rect(b.x, b.y, b.w, t.y - b.y)] else [])
      && PieceAt(Left, t, b) == (if t.x > b.x then [Rect(b.x, upper, t.x - b.x, lower - upper)] else [])
      && PieceAt(Right, t, b) ==
         (if t.x + t.w < b.x + b.w then [Rect(t.x + t.w, upper, b.x + b.w - (t.x + t.w), lower - upper)] else [])
      && PieceAt(Bottom, t, b) ==
         (if t.y + t.h < b.y + b.h then [Rect(b.x, t.y + t.h, b.w, b.y + b.h - (t.y + t.h))] else [])
  {
    assert Pieces(t, b, 0) == [];
    assert Pieces(t, b, 1) == PieceAt(Top, t, b);
    assert Pieces(t, b, 2) == Pieces(t, b, 1) + PieceAt(Left, t, b);
    assert Pieces(t, b, 3) == Pieces(t, b, 2) + PieceAt(Right, t, b);
  }

  // One pass over a rectangle list.
  function CutList(t: Rect, rs: seq<Rect>): seq<Rect> {
    if rs == [] then [] else CutList(t, rs[..|rs| - 1]) + CutOne(t, rs[|rs| - 1])
  }

  // One pass for every rectangle above, lowest first.
  function CutAll(rs: seq<Rect>, tops: seq<Rect>): seq<Rect> {
    if tops == [] then rs else CutList(tops[|tops| - 1], CutAll(rs, tops[..|tops| - 1]))
  }

  // How many rectangles of the list contain the pixel.
  function Cover(rs: seq<Rect>, px: int, py: int): nat {
    if rs == [] then 0
    else Cover(rs[..|rs| - 1], px, py) + if Contains(rs[|rs| - 1], px, py) then 1 else 0
  }

  predicate Hidden(tops: seq<Rect>, px: int, py: int) {
    exists i :: 0 <= i < |tops| && Contains(tops[i], px, py)
  }

  predicate Visible(base: Rect, tops: seq<Rect>, px: int, py: int) {
    Contains(base, px, py) && !Hidden(tops, px, py)
  }

  ghost predicate Disjoint(rs: seq<Rect>) {
    forall i, j, px, py ::
      0 <= i < j < |rs| && Contains(rs[i], px, py) ==> !Contains(rs[j], px, py)
  }

  // A rectangle that takes away exactly its own pixels from whatever lies under it.
  predicate Proper(t: Rect) {
    t.h == 0 || (t.h > 0 && t.w >= 0)
  }

  ghost predicate CutsExactly(t: Rect, b: Rect) {
    forall px, py :: Cover(CutOne(t, b), px, py) == if Contains(b, px, py) && !Contains(t, px, py) then 1 else 0
  }

  lemma {:induction false} CoverAppend(a: seq<Rect>, b: seq<Rect>, px: int, py: int)
    ensures Cover(a + b, px, py) == Cover(a, px, py) + Cover(b, px, py)
  {
    if b == [] {
      assert a + b == a;
    } else {
      CoverAppend(a, b[..|b| - 1], px, py);
      assert (a + b)[..|a + b| - 1] == a + b[..|b| - 1];
    }
  }

  // 1 if the piece on side s exists and contains the pixel.
  function Hit(s: Side, t: Rect, b: Rect, px: int, py: int): nat {
    if SticksOut(s, t, b) && Contains(Piece(s, t, b), px, py) then 1 else 0
  }

  lemma CoverPieces(t: Rect, b: Rect, px: int, py: int)
    ensures Cover(Pieces(t, b, 4), px, py)
         == Hit(Top, t, b, px, py) + Hit(Left, t, b, px, py) + Hit(Right, t, b, px, py) + Hit(Bottom, t, b, px, py)
  {
    CoverPiecesStep(t, b, 1, px, py);
    CoverPiecesStep(t, b, 2, px, py);
    CoverPiecesStep(t, b, 3, px, py);
    CoverPiecesStep(t, b, 4, px, py);
  }

  lemma CoverPiecesStep(t: Rect, b: Rect, k: nat, px: int, py: int)
    requires 0 < k <= |ORDER|
    ensures Cover(Pieces(t, b, k), px, py) == Cover(Pieces(t, b, k - 1), px, py) + Hit(ORDER[k - 1], t, b, px, py)
  {
    var last := if SticksOut(ORDER[k - 1], t, b) then [Piece(ORDER[k - 1], t, b)] else [];
    CoverAppend(Pieces(t, b, k - 1), last, px, py);
    if last != [] {
      assert last[..|last| - 1] == [];
    }
  }

  lemma CoverCutOne(t: Rect, b: Rect, px: int, py: int)
    requires Proper(t)
    ensures Cover(CutOne(t, b), px, py) == if Contains(b, px, py) && !Contains(t, px, py) then 1 else 0
  {
    if Overlaps(t, b) {
      CoverPieces(t, b, px, py);
      HitTop(t, b, px, py);
      HitLeft(t, b, px, py);
      HitRight(t, b, px, py);
      HitBottom(t, b, px, py);
      hide Hit, Pieces, Overlaps, Cover;
    } else {
      assert [b][..0] == [];
    }
  }

  lemma HitTop(t: Rect, b: Rect, px: int, py: int)
    requires Overlaps(t, b)
    ensures Hit(Top, t, b, px, py) == if Contains(b, px, py) && py < t.y then 1 else 0
  {
  }

  lemma HitLeft(t: Rect, b: Rect, px: int, py: int)
    requires Overlaps(t, b)
    ensures Hit(Left, t, b, px, py) == if Contains(b, px, py) && t.y <= py < t.y + t.h && px < t.x then 1 else 0
  {
  }

  lemma HitRight(t: Rect, b: Rect, px: int, py: int)
    requires Overlaps(t, b)
    ensures Hit(Right, t, b, px, py) == if Contains(b, px, py) && t.y <= py < t.y + t.h && t.x + t.w <= px then 1 else 0
  {
  }

  lemma HitBottom(t: Rect, b: Rect, px: int, py: int)
    requires Overlaps(t, b)
    ensures Hit(Bottom, t, b, px, py) == if Contains(b, px, py) && t.y + t.h <= py then 1 else 0
  {
  }

  /** Cutting is exact for every rectangle underneath precisely when the upper one is proper. */
  lemma CutExactIff(t: Rect)
    ensures (forall b :: Solid(b) ==> CutsExactly(t, b)) <==> Proper(t)
  {
    if Proper(t) {
      forall b | Solid(b) ensures CutsExactly(t, b) {
        forall px, py
          ensures Cover(CutOne(t, b), px, py) == if Contains(b, px, py) && !Contains(t, px, py) then 1 else 0
        {
          CoverCutOne(t, b, px, py);
        }
      }
    } else {
      ImproperCut(t);
    }
  }

  // The witness: a rectangle one pixel larger on every side; two of its pieces overlap.
  lemma ImproperCut(t: Rect)
    requires !Proper(t)
    ensures exists b :: Solid(b) && !CutsExactly(t, b)
  {
    var b, px, py;
    if t.h < 0 {
      b := Rect(Min(t.x, t.x + t.w) - 1, t.y + t.h - 1, Max(t.w, -t.w) + 2, 2 - t.h);
      px, py := b.x, t.y + t.h;
    } else {
      b := Rect(t.x + t.w - 1, t.y - 1, 2 - t.w, t.h + 2);
      px, py := t.x + t.w, t.y;
    }
    CoverPieces(t, b, px, py);
    assert Cover(CutOne(t, b), px, py) == 2;
    assert Solid(b) && !CutsExactly(t, b);
  }

  lemma {:induction false} CoverCutList(t: Rect, rs: seq<Rect>, px: int, py: int)
    requires Proper(t)
    ensures Cover(CutList(t, rs), px, py) == if Contains(t, px, py) then 0 else Cover(rs, px, py)
  {
    if rs != [] {
      CoverCutList(t, rs[..|rs| - 1], px, py);
      CoverCutOne(t, rs[|rs| - 1], px, py);
      CoverAppend(CutList(t, rs[..|rs| - 1]), CutOne(t, rs[|rs| - 1]), px, py);
    }
  }

  lemma HiddenAppend(tops: seq<Rect>, t: Rect, px: int, py: int)
    ensures Hidden(tops + [t], px, py) <==> Hidden(tops, px, py) || Contains(t, px, py)
  {
    if Hidden(tops, px, py) {
      var i :| 0 <= i < |tops| && Contains(tops[i], px, py);
      assert Contains((tops + [t])[i], px, py);
    }
    if Contains(t, px, py) {
      assert Contains((tops + [t])[|tops|], px, py);
    }
  }

  lemma {:induction false} CoverCutAll(rs: seq<Rect>, tops: seq<Rect>, px: int, py: int)
    requires forall i :: 0 <= i < |tops| ==> Proper(tops[i])
    ensures Cover(CutAll(rs, tops), px, py) == if Hidden(tops, px, py) then 0 else Cover(rs, px, py)
  {
    if tops != [] {
      var rest, t := tops[..|tops| - 1], tops[|tops| - 1];
      CoverCutAll(rs, rest, px, py);
      CoverCutList(t, CutAll(rs, rest), px, py);
      assert tops == rest + [t];
      HiddenAppend(rest, t, px, py);
    }
  }

  /** The pieces left of base under a stack of proper rectangles are exactly its visible pixels, each once. */
  lemma VisibleExactly(base: Rect, tops: seq<Rect>, px: int, py: int)
    requires forall i :: 0 <= i < |tops| ==> Proper(tops[i])
    ensures Cover(CutAll([base], tops), px, py) == if Visible(base, tops, px, py) then 1 else 0
  {
    CoverCutAll([base], tops, px, py);
    assert [base][..0] == [];
  }

  lemma SolidCutOne(t: Rect, b: Rect)
    requires Solid(t) && Solid(b)
    ensures AllSolid(CutOne(t, b))
  {
    if Overlaps(t, b) {
      assert AllSolid(Pieces(t, b, 0));
      assert AllSolid(Pieces(t, b, 1));
      assert AllSolid(Pieces(t, b, 2));
      assert AllSolid(Pieces(t, b, 3));
      assert AllSolid(Pieces(t, b, 4));
    }
  }

  lemma {:induction false} SolidCutList(t: Rect, rs: seq<Rect>)
    requires Solid(t) && AllSolid(rs)
    ensures AllSolid(CutList(t, rs))
  {
    if rs != [] {
      SolidCutList(t, rs[..|rs| - 1]);
      SolidCutOne(t, rs[|rs| - 1]);
    }
  }

  lemma {:induction false} SolidCutAll(rs: seq<Rect>, tops: seq<Rect>)
    requires AllSolid(tops) && AllSolid(rs)
    ensures AllSolid(CutAll(rs, tops))
  {
    if tops != [] {
      SolidCutAll(rs, tops[..|tops| - 1]);
      SolidCutList(tops[|tops| - 1], CutAll(rs, tops[..|tops| - 1]));
    }
  }

  lemma {:induction false} CoverLowerBound(rs: seq<Rect>, i: nat, px: int, py: int)
    requires i < |rs| && Contains(rs[i], px, py)
    ensures Cover(rs, px, py) >= 1
    ensures forall j :: i < j < |rs| && Contains(rs[j], px, py) ==> Cover(rs, px, py) >= 2
  {
    if i < |rs| - 1 {
      CoverLowerBound(rs[..|rs| - 1], i, px, py);
    }
  }

  /** No pixel counted twice means no two rectangles share one. */
  lemma DisjointFromCover(rs: seq<Rect>)
    requires forall px, py :: Cover(rs, px, py) <= 1
    ensures Disjoint(rs)
  {
    forall i, j, px, py | 0 <= i < j < |rs| && Contains(rs[i], px, py)
      ensures !Contains(rs[j], px, py)
    {
      CoverLowerBound(rs, i, px, py);
    }
  }

  lemma {:induction false} CoverWitness(rs: seq<Rect>, px: int, py: int)
    requires Cover(rs, px, py) > 0
    ensures exists i :: 0 <= i < |rs| && Contains(rs[i], px, py)
  {
    if !Contains(rs[|rs| - 1], px, py) {
      CoverWitness(rs[..|rs| - 1], px, py);
      var i :| 0 <= i < |rs| - 1 && Contains(rs[..|rs| - 1][i], px, py);
      assert Contains(rs[i], px, py);
    }
  }

  // A solid rectangle whose pixels all belong to another one lies inside it.
  lemma PixelsWithin(r: Rect, outer: Rect)
    requires Solid(r)
    requires forall px, py :: Contains(r, px, py) ==> Contains(outer, px, py)
    ensures Within(r, outer)
  {
    assert Contains(r, r.x, r.y);
    assert Contains(r, r.x + r.w - 1, r.y + r.h - 1);
  }
}
