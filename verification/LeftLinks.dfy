/** What the links lead to that wm_close leaves in a closed window (aes/newwmlib.c). */
module LeftLinks {
  import opened Chains
  import opened Windows
  import opened ZOrder

  predicate ClosedIn(ws: map<int, Window>, h: int) { h in ws && !ws[h].isOpen }

  // Every closed window is older than the closed window that its ontop link leads to; all are younger than n.
  ghost predicate Ages(ws: map<int, Window>, age: map<int, int>, n: int) {
    forall h :: ClosedIn(ws, h) ==>
      && h in age && age[h] < n
      && (ClosedIn(ws, ws[h].ontop) ==> ws[h].ontop in age && age[h] < age[ws[h].ontop])
  }

  // The links of closed windows never lead in a circle.
  ghost predicate NoCircle(ws: map<int, Window>) {
    exists age, n :: Ages(ws, age, n)
  }

  /** Only window c was closed or created, and what it leads to is not closed. */
  lemma NoCircleStep(ws0: map<int, Window>, ws1: map<int, Window>, c: int)
    requires NoCircle(ws0)
    requires forall h :: ClosedIn(ws1, h) && h != c ==>
      ClosedIn(ws0, h) && (ws1[h].ontop == ws0[h].ontop || !ClosedIn(ws1, ws1[h].ontop))
    requires ClosedIn(ws1, c) ==>
      !ClosedIn(ws1, ws1[c].ontop) || (ClosedIn(ws0, c) && ws1[c].ontop == ws0[c].ontop)
    ensures NoCircle(ws1)
  {
    var age, n :| Ages(ws0, age, n);
    var age1 := if ClosedIn(ws1, c) && !ClosedIn(ws1, ws1[c].ontop) then age[c := n] else age;
    assert Ages(ws1, age1, n + 1);
  }

  /** Opening or moving a window, or closing one whose ontop link leads to an open window or nowhere. */
  lemma NoCircleKept(ws0: map<int, Window>, ws1: map<int, Window>, h: int, w: Window)
    requires SameBut(ws0, ws1, h, w)
    requires w.isOpen || !ClosedIn(ws1, w.ontop) || (!ws0[h].isOpen && w.ontop == ws0[h].ontop)
    ensures NoCircle(ws0) ==> NoCircle(ws1)
  {
    if NoCircle(ws0) {
      NoCircleStep(ws0, ws1, h);
    }
  }

  /** A window that is closed keeps its ontop link, which leads to an open window or nowhere. */
  lemma NoCircleClosed(ws0: map<int, Window>, z: seq<int>, k: nat, w: Window, ws1: map<int, Window>)
    requires Stacked(ws0, z) && OpenIn(ws0, z) && NIL !in ws0 && k < |z|
    requires SameBut(ws0, ws1, z[k], w) && w.ontop == ws0[z[k]].ontop
    ensures NoCircle(ws0) ==> NoCircle(ws1)
  {
    LinksAt(ws0, z, k);
    if k + 1 < |z| {
      assert ws0[z[k + 1]].isOpen && z[k + 1] != z[k];
      assert SameWindow(ws0[z[k + 1]], ws1[z[k + 1]]);
    }
    NoCircleKept(ws0, ws1, z[k], w);
  }

  /** From a window on top of another one the links lead through windows, and end at NIL or at a window that is gone. */
  lemma TrailExists(ws: map<int, Window>, z: seq<int>, h: int)
    requires Stacked(ws, z) && OpenIn(ws, z) && NIL !in ws && NoCircle(ws) && h in ws
    ensures exists hs, e :: Trail(ws, h, hs, e)
  {
    hide Stacked, OpenIn;
    var age, n :| Ages(ws, age, n);
    var _, _ := TrailFrom(ws, z, h, age, n);
  }

  lemma {:induction false} TrailFrom(ws: map<int, Window>, z: seq<int>, h: int, age: map<int, int>, n: int)
    returns (hs: seq<int>, e: int)
    requires Stacked(ws, z) && OpenIn(ws, z) && NIL !in ws && Ages(ws, age, n) && h in ws
    ensures Trail(ws, h, hs, e)
    decreases if h in age then n - age[h] else 0
  {
    hide Stacked, OpenIn;
    OpenAt(ws, z, h);
    var a := ws[h].ontop;
    if ws[h].isOpen {
      var i :| 0 <= i < |z| && z[i] == h;
      AboveIsOntopChain(ws, z, i);
      hs, e := z[i + 1..], NIL;
    } else if a !in ws {
      hs, e := [], a;
    } else if !ws[a].isOpen {
      hs, e := TrailFrom(ws, z, a, age, n);
      TrailMore(ws, h, a, hs, e);
      hs := [a] + hs;
    } else {
      OpenAt(ws, z, a);
      var i :| 0 <= i < |z| && z[i] == a;
      AboveIsOntopChain(ws, z, i);
      hs, e := z[i + 1..], NIL;
      TrailMore(ws, h, a, hs, e);
      hs := [a] + hs;
    }
  }

  lemma TrailMore(ws: map<int, Window>, h: int, a: int, hs: seq<int>, e: int)
    requires h in ws && NIL !in ws && ws[h].ontop == a && Trail(ws, a, hs, e)
    ensures Trail(ws, h, [a] + hs, e)
  {
    var hs' := [a] + hs;
    forall i | 0 <= i < |hs'|
      ensures hs'[i] in ws && hs'[i] != NIL && ws[hs'[i]].ontop == After(hs', i, e)
    {
      if i > 0 {
        assert hs'[i] == hs[i - 1];
        assert ws[hs[i - 1]].ontop == After(hs, i - 1, e);
      }
    }
  }

  /** The links of an open window lead to the windows above it and nowhere else. */
  lemma OpenTrail(ws: map<int, Window>, z: seq<int>, i: nat, hs: seq<int>, e: int)
    requires Stacked(ws, z) && i < |z| && Trail(ws, z[i], hs, e)
    ensures hs == z[i + 1..] && e == NIL
  {
    AboveIsOntopChain(ws, z, i);
    TrailUnique(ws, z[i], hs, e, z[i + 1..], NIL);
  }
}
