/** GEMDOS system blocks: each one holds an open file or four memory descriptors (bdos/osmem.c). */
module BlockPool {
  import opened Chains

  const MDS_PER_BLOCK: int := 4
  const MF_FREE: int := 1

  // What a descriptor is used for, besides FREE (nothing).
  const ON_MFL: int := 0
  const ON_MAL: int := 1
  const LOOSE: int := 2  // handed out by mgetmd and on no list

  // The blocks: o_link and x_flag (0 unused, -1 an open file, 1 descriptors).
  datatype Blocks = Blocks(blink: seq<int>, flag: seq<int>)

  // The descriptors, four per block: slot 4 * b + i is the i-th one of block b; and the roots of the two lists.
  datatype Descs = Descs(mlink: seq<int>, start: seq<int>, length: seq<int>, own: seq<int>, mfl: int, mal: int)

  // The blocks of the list, and the descriptors of mp_mfl and mp_mal.
  datatype Shape = Shape(bl: seq<int>, kind: seq<int>, cf: seq<int>, ca: seq<int>)

  ghost predicate Sized(b: Blocks, d: Descs, s: Shape, n: nat) {
    && |b.blink| == n && |b.flag| == n
    && |d.mlink| == 4 * n && |d.start| == 4 * n && |d.length| == 4 * n && |d.own| == 4 * n && |s.kind| == 4 * n
  }

  // Slot m belongs to a block of descriptors.
  ghost predicate InUse(b: Blocks, bl: seq<int>, m: int) {
    0 <= m < 4 * |b.flag| && b.flag[m / 4] > 0 && m / 4 in bl
  }

  // A descriptor is free exactly when it is used for nothing.
  ghost predicate Kinds(b: Blocks, own: seq<int>, s: Shape) {
    && |own| == |s.kind| == 4 * |b.flag|
    && (forall m :: 0 <= m < |s.kind| ==> s.kind[m] in {FREE, ON_MFL, ON_MAL, LOOSE})
    && (forall m :: 0 <= m < |s.kind| && s.kind[m] != FREE ==> InUse(b, s.bl, m) && own[m] != MF_FREE)
    && (forall m :: 0 <= m < |s.kind| && s.kind[m] == FREE && InUse(b, s.bl, m) ==> own[m] == MF_FREE)
  }

  ghost predicate Lists(d: Descs, s: Shape) {
    && Holds(d.mlink, d.mfl, s.cf, s.kind, ON_MFL)
    && Holds(d.mlink, d.mal, s.ca, s.kind, ON_MAL)
  }

  ghost predicate Sound(b: Blocks, ofdlist: int, d: Descs, s: Shape, n: nat) {
    Sized(b, d, s, n) && Chain(b.blink, ofdlist, s.bl) && Kinds(b, d.own, s) && Lists(d, s)
  }

  // What a list of descriptors says: start, length and owner of each.
  datatype Desc = Desc(start: int, length: int, own: int)

  function Listed(d: Descs, c: seq<int>): seq<Desc>
    requires InArena(c, |d.start|) && |d.length| == |d.start| == |d.own|
  {
    seq(|c|, i requires 0 <= i < |c| => Desc(d.start[c[i]], d.length[c[i]], d.own[c[i]]))
  }

  // ---- counting ----

  function FreeAt(own: seq<int>, m: int): int {
    if 0 <= m < |own| && own[m] == MF_FREE then 1 else 0
  }

  // The free descriptors of a block.
  function FreeOf(own: seq<int>, b: int): int {
    FreeAt(own, 4 * b) + FreeAt(own, 4 * b + 1) + FreeAt(own, 4 * b + 2) + FreeAt(own, 4 * b + 3)
  }

  function Weight(own: seq<int>, flag: seq<int>, b: int): int {
    if 0 <= b < |flag| && flag[b] > 0 then FreeOf(own, b) else 0
  }

  // The free descriptors of all blocks.
  function Total(own: seq<int>, flag: seq<int>, bl: seq<int>): int {
    if bl == [] then 0 else Total(own, flag, bl[..|bl| - 1]) + Weight(own, flag, bl[|bl| - 1])
  }

  /** More free descriptors than block p has: another block has some. */
  lemma {:induction false} FreeElsewhere(own: seq<int>, flag: seq<int>, bl: seq<int>, p: int)
    requires Total(own, flag, bl) > (if p in bl then Weight(own, flag, p) else 0) && Distinct(bl)
    ensures exists j :: 0 <= j < |bl| && bl[j] != p && Weight(own, flag, bl[j]) > 0
    decreases |bl|
  {
    var n := |bl| - 1;
    if bl[n] == p {
      assert p !in bl[..n];
      FreeElsewhere(own, flag, bl[..n], p);
      var j :| 0 <= j < n && bl[..n][j] != p && Weight(own, flag, bl[..n][j]) > 0;
      assert bl[j] != p && Weight(own, flag, bl[j]) > 0;
    } else if Weight(own, flag, bl[n]) == 0 {
      assert p in bl <==> p in bl[..n] by {
        assert bl == bl[..n] + [bl[n]];
      }
      FreeElsewhere(own, flag, bl[..n], p);
      var j :| 0 <= j < n && bl[..n][j] != p && Weight(own, flag, bl[..n][j]) > 0;
      assert bl[j] != p && Weight(own, flag, bl[j]) > 0;
    } else {
      assert Weight(own, flag, bl[n]) > 0;
    }
  }

  lemma WeightRange(own: seq<int>, flag: seq<int>, b: int)
    ensures 0 <= Weight(own, flag, b) <= 4
  {
  }

  /** The totals of two states whose blocks have the same number of free descriptors. */
  lemma {:induction false} TotalSame(own: seq<int>, own': seq<int>, flag: seq<int>, bl: seq<int>)
    requires forall j :: 0 <= j < |bl| ==> Weight(own', flag, bl[j]) == Weight(own, flag, bl[j])
    ensures Total(own', flag, bl) == Total(own, flag, bl)
    decreases |bl|
  {
    if bl != [] {
      assert forall j :: 0 <= j < |bl| - 1 ==> bl[..|bl| - 1][j] == bl[j];
      TotalSame(own, own', flag, bl[..|bl| - 1]);
    }
  }

  /** One block with a different number of free descriptors. */
  lemma {:induction false} TotalChange(own: seq<int>, own': seq<int>, flag: seq<int>, bl: seq<int>, k: nat)
    requires k < |bl| && Distinct(bl)
    requires forall j :: 0 <= j < |bl| && j != k ==> Weight(own', flag, bl[j]) == Weight(own, flag, bl[j])
    ensures Total(own', flag, bl) == Total(own, flag, bl) + Weight(own', flag, bl[k]) - Weight(own, flag, bl[k])
    decreases |bl|
  {
    var n := |bl| - 1;
    assert forall j :: 0 <= j < n ==> bl[..n][j] == bl[j];
    if k == n {
      TotalSame(own, own', flag, bl[..n]);
    } else {
      TotalChange(own, own', flag, bl[..n], k);
    }
  }

  lemma WeightOther(own: seq<int>, m: int, v: int, flag: seq<int>, b: int)
    requires 0 <= m < |own| && m / 4 != b
    ensures Weight(own[m := v], flag, b) == Weight(own, flag, b)
  {
  }

  lemma WeightSet(own: seq<int>, m: int, v: int, flag: seq<int>)
    requires 0 <= m < |own| && 0 <= m / 4 < |flag| && flag[m / 4] > 0
    ensures Weight(own[m := v], flag, m / 4) ==
      Weight(own, flag, m / 4) - FreeAt(own, m) + if v == MF_FREE then 1 else 0
  {
    assert m == 4 * (m / 4) + m % 4;
  }

  /** Storing an owner changes the total by that descriptor. */
  lemma TotalSet(own: seq<int>, m: int, v: int, flag: seq<int>, bl: seq<int>, k: nat)
    requires 0 <= m < |own| && Distinct(bl) && k < |bl| && bl[k] == m / 4 && m / 4 < |flag| && flag[m / 4] > 0
    ensures Total(own[m := v], flag, bl) == Total(own, flag, bl) - FreeAt(own, m) + if v == MF_FREE then 1 else 0
  {
    forall j | 0 <= j < |bl| && j != k
      ensures Weight(own[m := v], flag, bl[j]) == Weight(own, flag, bl[j])
    {
      WeightOther(own, m, v, flag, bl[j]);
    }
    TotalChange(own, own[m := v], flag, bl, k);
    WeightSet(own, m, v, flag);
  }

  // ---- moving a descriptor ----

  // mdlink: descriptor m, at position k of a list, moves to the free slot e.
  function Moved(d: Descs, c: seq<int>, k: nat, e: int, onMfl: bool): Descs
    requires k < |c| && InArena(c, |d.mlink|) && 0 <= e < |d.mlink|
    requires |d.start| == |d.length| == |d.own| == |d.mlink|
  {
    var m := c[k];
    Descs(
      LinkMoved(d.mlink, c, k, e),
      d.start[e := d.start[m]], d.length[e := d.length[m]], d.own[e := d.own[m]],
      if onMfl && k == 0 then e else d.mfl,
      if !onMfl && k == 0 then e else d.mal)
  }

  function MovedShape(s: Shape, k: nat, e: int, onMfl: bool): Shape
    requires k < |if onMfl then s.cf else s.ca| && 0 <= e < |s.kind|
    requires 0 <= (if onMfl then s.cf else s.ca)[k] < |s.kind|
  {
    var c := if onMfl then s.cf else s.ca;
    Shape(s.bl, s.kind[e := if onMfl then ON_MFL else ON_MAL][c[k] := FREE],
          if onMfl then c[k := e] else s.cf, if onMfl then s.ca else c[k := e])
  }

  lemma HoldsFacts(link: seq<int>, head: int, c: seq<int>, kind: seq<int>, w: int)
    requires Holds(link, head, c, kind, w)
    ensures InArena(c, |link|) && Distinct(c) && |kind| == |link|
    ensures forall i :: 0 <= i < |c| ==> kind[c[i]] == w
    ensures forall m :: 0 <= m < |kind| && kind[m] == w ==> m in c
    ensures head == Head(c, NIL)
  {
  }

  lemma MovedLists(d: Descs, s: Shape, k: nat, e: int, onMfl: bool)
    requires Lists(d, s) && |d.start| == |d.length| == |d.own| == |d.mlink|
    requires k < |if onMfl then s.cf else s.ca| && 0 <= e < |s.kind| && s.kind[e] == FREE
    ensures InArena(s.cf, |d.mlink|) && InArena(s.ca, |d.mlink|) && |s.kind| == |d.mlink|
    ensures
      var c := if onMfl then s.cf else s.ca;
      && 0 <= c[k] < |s.kind| && s.kind[c[k]] == (if onMfl then ON_MFL else ON_MAL)
      && Lists(Moved(d, c, k, e, onMfl), MovedShape(s, k, e, onMfl))
  {
    hide Holds;
    HoldsFacts(d.mlink, d.mfl, s.cf, s.kind, ON_MFL);
    HoldsFacts(d.mlink, d.mal, s.ca, s.kind, ON_MAL);
    var c := if onMfl then s.cf else s.ca;
    var w := if onMfl then ON_MFL else ON_MAL;
    MoveOne(d.mlink, if onMfl then d.mfl else d.mal, c, s.kind, w, k, e);
    var kind' := s.kind[e := w][c[k] := FREE];
    if onMfl {
      MoveOther(d.mlink, d.mal, s.ca, s.kind, ON_MAL, c, w, k, e);
    } else {
      MoveOther(d.mlink, d.mfl, s.cf, s.kind, ON_MFL, c, w, k, e);
    }
  }

  // The links after the node at position k of c moved to e.
  function LinkMoved(link: seq<int>, c: seq<int>, k: nat, e: int): seq<int>
    requires k < |c| && InArena(c, |link|) && 0 <= e < |link|
  {
    var link1 := link[e := link[c[k]]];
    if k == 0 then link1 else link1[c[k - 1] := e]
  }

  lemma MoveOne(link: seq<int>, head: int, c: seq<int>, kind: seq<int>, w: int, k: nat, e: int)
    requires Holds(link, head, c, kind, w) && k < |c| && 0 <= e < |link| && |kind| == |link| && kind[e] == FREE
    requires w != FREE
    ensures InArena(c, |link|)
    ensures Holds(LinkMoved(link, c, k, e), if k == 0 then e else head, c[k := e], kind[e := w][c[k] := FREE], w)
  {
    HoldsMove(link, head, c, kind, w, k, e, FREE);
  }

  lemma MoveOther(link: seq<int>, head: int, b: seq<int>, kind: seq<int>, v: int, c: seq<int>, w: int, k: nat, e: int)
    requires Holds(link, head, b, kind, v) && InArena(c, |link|) && k < |c| && 0 <= e < |link| && |kind| == |link|
    requires forall i :: 0 <= i < |c| ==> kind[c[i]] == w
    requires kind[e] == FREE && v != w && v != FREE && w != FREE
    ensures Holds(LinkMoved(link, c, k, e), head, b, kind[e := w][c[k] := FREE], v)
  {
    HoldsKept(link, LinkMoved(link, c, k, e), head, b, kind, kind[e := w][c[k] := FREE], v);
  }

  /** The lists say the same as before. */
  lemma MovedListed(d: Descs, s: Shape, k: nat, e: int, onMfl: bool)
    requires Lists(d, s) && |d.start| == |d.length| == |d.own| == |d.mlink|
    requires k < |if onMfl then s.cf else s.ca| && 0 <= e < |s.kind| && s.kind[e] == FREE
    ensures InArena(s.cf, |d.mlink|) && InArena(s.ca, |d.mlink|)
    ensures
      var d', s' := Moved(d, if onMfl then s.cf else s.ca, k, e, onMfl), MovedShape(s, k, e, onMfl);
      && InArena(s'.cf, |d'.mlink|) && InArena(s'.ca, |d'.mlink|)
      && Listed(d', s'.cf) == Listed(d, s.cf) && Listed(d', s'.ca) == Listed(d, s.ca)
  {
    hide Holds;
    HoldsFacts(d.mlink, d.mfl, s.cf, s.kind, ON_MFL);
    HoldsFacts(d.mlink, d.mal, s.ca, s.kind, ON_MAL);
    var c, b := if onMfl then s.cf else s.ca, if onMfl then s.ca else s.cf;
    assert forall i :: 0 <= i < |c| ==> c[i] != e;
    assert forall i :: 0 <= i < |b| ==> b[i] != e;
    ListedMoved(d, Moved(d, c, k, e, onMfl), c, k, e);
    ListedKept(d, Moved(d, c, k, e, onMfl), b, e);
  }

  lemma ListedMoved(d: Descs, d': Descs, c: seq<int>, k: nat, e: int)
    requires InArena(c, |d.start|) && |d.length| == |d.start| == |d.own| && Distinct(c) && k < |c| && 0 <= e < |d.start|
    requires forall i :: 0 <= i < |c| ==> c[i] != e
    requires d'.start == d.start[e := d.start[c[k]]] && d'.length == d.length[e := d.length[c[k]]]
    requires d'.own == d.own[e := d.own[c[k]]]
    ensures Listed(d', c[k := e]) == Listed(d, c)
  {
  }

  lemma ListedKept(d: Descs, d': Descs, c: seq<int>, e: int)
    requires InArena(c, |d.start|) && |d.length| == |d.start| == |d.own| && 0 <= e < |d.start|
    requires |d'.length| == |d'.start| == |d'.own| == |d.start|
    requires forall i :: 0 <= i < |c| ==> c[i] != e
    requires forall m :: 0 <= m < |d.start| && m != e ==>
      d'.start[m] == d.start[m] && d'.length[m] == d.length[m] && d'.own[m] == d.own[m]
    ensures Listed(d', c) == Listed(d, c)
  {
  }
}
