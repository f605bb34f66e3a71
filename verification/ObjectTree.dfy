/** The routines on object trees: everyobj, get_par, ob_find, ob_add, ob_delete, ob_order and ob_offset. */
module ObjectTree {
  import opened Chains
  import opened Geometry
  import opened TreeShape
  import opened TreeWalk
  import opened TreeOrder

  const MAX_DEPTH := 8

  class Tree {
    var next: seq<int>
    var head: seq<int>
    var tail: seq<int>
    var looks: Looks       // ob_x, ob_y, ob_width, ob_height and HIDETREE
    ghost var t: Shape

    ghost function N(): nat
      reads this
    {
      |next|
    }

    ghost function L(): Links
      reads this
    {
      Links(next, head, tail)
    }

    ghost predicate Valid()
      reads this
    {
      Threaded(L(), t, N()) && Complete(looks, t)
    }

    lemma Kid(p: int, i: nat)
      requires Valid() && 0 <= p < N() && i < |t.kids[p]|
      ensures var c := t.kids[p][i];
        && 0 <= c < N() && c != ROOT && c != p && t.par[c] == p && t.rank[c] < t.rank[p]
        && next[c] == After(t.kids[p], i, p) && 0 <= next[c] < N()
        && (tail[next[c]] == c <==> i == |t.kids[p]| - 1)
    {
      KidAt(L(), t, N(), p, i);
      TailTells(L(), t, N(), p, i);
    }

    lemma Ends(p: int)
      requires Valid() && 0 <= p < N()
      ensures |head| == N() && |tail| == N() && Sized(L(), t, N()) && Parents(t)
      ensures head[p] == Head(t.kids[p], NIL) && tail[p] == LastOf(t.kids[p])
      ensures InArena(t.kids[p], N()) && Distinct(t.kids[p])
    {
      FamilyAt(L(), t, N(), p);
    }

    /** The parent of an object; NIL for the root. */
    method GetPar(obj: int) returns (pobj: int)
      requires Valid() && 0 <= obj < N() && (obj == ROOT || t.par[obj] != NIL)
      ensures pobj == if obj == ROOT then NIL else t.par[obj]
      ensures pobj != NIL ==> 0 <= pobj < N()
    {
      hide Threaded, Parents;
      Ends(obj);
      pobj := obj;
      if obj == ROOT {
        return NIL;
      }
      ghost var p, i := t.par[obj], PlaceOf(t, obj);
      ParentRank(t, obj);
      var o := pobj;
      pobj := next[o];
      Kid(p, i);
      while tail[pobj] != o
        invariant 0 <= i < |t.kids[p]| && o == t.kids[p][i] && 0 <= o < N() && pobj == next[o]
        invariant 0 <= pobj < N() && (tail[pobj] == o <==> i == |t.kids[p]| - 1) && pobj == After(t.kids[p], i, p)
        decreases |t.kids[p]| - i
      {
        o := pobj;
        pobj := next[o];
        i := i + 1;
        Kid(p, i);
      }
    }

    /** The position of an object on the screen: its offset and those of all objects above it. */
    method ObOffset(obj: int) returns (x: int, y: int)
      requires Valid() && 0 <= obj < N() && Rooted(obj)
      ensures x == Total(looks.x, t, obj) && y == Total(looks.y, t, obj)
    {
      hide Threaded, Parents;
      Ends(obj);
      x, y := 0, 0;
      var o := obj;
      while o != NIL
        invariant o != NIL ==> 0 <= o < N() && Rooted(o)
        invariant x + (if o == NIL then 0 else Total(looks.x, t, o)) == Total(looks.x, t, obj)
        invariant y + (if o == NIL then 0 else Total(looks.y, t, o)) == Total(looks.y, t, obj)
        decreases if o == NIL then 0 else Highest(t.rank) - t.rank[o] + 1
      {
        RootedStep(o);
        HighestIs(t.rank, o);
        x := x + looks.x[o];
        y := y + looks.y[o];
        o := GetPar(o);
      }
    }

    // The object belongs to the tree of the root.
    ghost predicate Rooted(o: int)
      requires Parents(t)
      reads this
    {
      0 <= o < |t.par| && t.par[ROOT] == NIL && Below(t, o, ROOT)
    }

    lemma RootedStep(o: int)
      requires Valid() && Rooted(o)
      ensures o != ROOT ==>
        t.par[o] != NIL && 0 <= t.par[o] < |t.par| && Rooted(t.par[o]) && t.rank[t.par[o]] > t.rank[o]
      ensures o == ROOT ==> t.par[o] == NIL
      ensures Total(looks.x, t, o) == looks.x[o] + if o == ROOT then 0 else Total(looks.x, t, t.par[o])
      ensures Total(looks.y, t, o) == looks.y[o] + if o == ROOT then 0 else Total(looks.y, t, t.par[o])
    {
      if o != ROOT {
        ParentRank(t, o);
      }
    }

    /** The previous sibling; NIL for the first child. */
    method GetPrev(parent: int, obj: int, ghost i: nat) returns (prev: int)
      requires Valid() && 0 <= parent < N() && i < |t.kids[parent]| && t.kids[parent][i] == obj
      ensures prev == (if i == 0 then NIL else t.kids[parent][i - 1]) && (i > 0 ==> 0 <= prev < N())
    {
      hide Threaded, Parents;
      Ends(parent);
      var pobj := head[parent];
      ghost var j: nat := 0;
      if pobj == obj {
        assert t.kids[parent][0] == obj;
        return NIL;
      }
      Kid(parent, 0);
      while next[pobj] != obj
        invariant j < i && pobj == t.kids[parent][j] && 0 <= pobj < N()
        invariant next[pobj] == After(t.kids[parent], j, parent)
        invariant 0 <= next[pobj] < N()
        decreases i - j
      {
        pobj := next[pobj];
        j := j + 1;
        Kid(parent, j);
      }
      Kid(parent, i);
      prev := pobj;
    }

    /** Appends a child; rank' shows that this makes no cycle. */
    method ObAdd(parent: int, child: int, ghost rank': seq<int>)
      requires Valid()
      requires parent != NIL && child != NIL ==>
        0 <= parent < N() && 0 <= child < N() && child != ROOT && t.par[child] == NIL
      requires parent != NIL && child != NIL ==> Ranked(t, rank') && rank'[child] < rank'[parent]
      modifies this`next, this`head, this`tail, this`t
      ensures Valid() && N() == old(N())
      ensures t == if parent == NIL || child == NIL then old(t) else Added(old(t), parent, child, rank')
      ensures parent != NIL && child != NIL ==>
        && t.kids == old(t).kids[parent := old(t).kids[parent] + [child]] && t.par == old(t).par[child := parent]
    {
      hide Threaded, Parents;
      if parent != NIL && child != NIL {
        Ends(parent);
        AddedThreaded(L(), t, N(), parent, child, rank');
        ghost var l := L();
        next := next[child := parent];
        var lastkid := tail[parent];
        if lastkid == NIL {
          head := head[parent := child];
        } else {
          next := next[lastkid := child];
        }
        tail := tail[parent := child];
        t := Added(t, parent, child, rank');
        assert L() == LinkAdded(l, parent, child);
        StillComplete(looks, old(t), t, L(), N());
      }
    }

    /** Takes an object out of its tree; the root stays. */
    method ObDelete(obj: int)
      requires Valid() && 0 <= obj < N() && (obj == ROOT || t.par[obj] != NIL)
      modifies this`next, this`head, this`tail, this`t
      ensures Valid() && N() == old(N())
      ensures obj == ROOT ==> t == old(t)
      ensures obj != ROOT ==> t == Removed(old(t), old(t).par[obj], PlaceOf(old(t), obj))
      ensures obj != ROOT ==>
        var p, i := old(t).par[obj], PlaceOf(old(t), obj);
        && t.kids == old(t).kids[p := old(t).kids[p][..i] + old(t).kids[p][i + 1..]] && t.par == old(t).par[obj := NIL]
    {
      hide Threaded, Parents;
      if obj == ROOT {
        return;
      }
      Ends(obj);
      var parent := GetPar(obj);
      ghost var i, l := PlaceOf(t, obj), L();
      ghost var ks := t.kids[parent];
      ParentRank(t, obj);
      Ends(parent);
      RemovedThreaded(L(), t, N(), parent, i);
      var next', head', tail' := DeleteWrites(obj, parent, i);
      hide LinkRemoved, Removed, InArena, Distinct;
      next, head, tail := next', head', tail';
      t := Removed(t, parent, i);
      assert L() == LinkRemoved(l, ks, parent, i);
      StillComplete(looks, old(t), t, L(), N());
    }

    // The links that ob_delete writes for the i-th child of parent.
    method DeleteWrites(obj: int, parent: int, ghost i: nat) returns (next': seq<int>, head': seq<int>, tail': seq<int>)
      requires Valid() && 0 <= parent < N() && i < |t.kids[parent]| && t.kids[parent][i] == obj
      ensures |head| == |tail| == N() && InArena(t.kids[parent], N())
      ensures Links(next', head', tail') == LinkRemoved(L(), t.kids[parent], parent, i)
    {
      hide Threaded, Parents;
      Ends(parent);
      Kid(parent, i);
      OnlyOne(t.kids[parent], i);
      var nextsib := next[obj];
      next', head', tail' := next, head, tail;
      if head[parent] == obj {
        if tail[parent] == obj {
          nextsib := NIL;
          tail' := tail'[parent := NIL];
        }
        head' := head'[parent := nextsib];
      } else {
        var prev := GetPrev(parent, obj, i);
        next' := next'[prev := nextsib];
        if tail'[parent] == obj {
          tail' := tail'[parent := prev];
        }
      }
    }

    /**
     Moves an object to another place among its siblings, NIL being the last one. An only child that is to be the first
     loses the tail link of its parent. An only child for any other place, or a place behind the last one, makes the
     source follow links that are not those of siblings (ok is false); the object is out of the tree then.
     */
    method ObOrder(movObj: int, newPos: int) returns (ok: bool)
      requires Valid() && 0 <= movObj < N() && (movObj == ROOT || t.par[movObj] != NIL)
      requires movObj != ROOT ==> 0 <= t.par[movObj] < N()
      modifies this`next, this`head, this`tail, this`t
      ensures N() == old(N()) && (movObj == ROOT ==> t == old(t))
      ensures ok <==> movObj == ROOT || CanOrder(newPos, |old(t).kids[old(t).par[movObj]]| - 1)
      ensures ok && movObj != ROOT ==> t == Reordered(old(t), movObj, newPos)
      ensures ok && movObj != ROOT ==>
        && t.par == old(t).par && |t.kids| == |old(t).kids|
        && (forall p :: 0 <= p < |t.kids| && p != t.par[movObj] ==> t.kids[p] == old(t).kids[p])
        && var ks, was := t.kids[t.par[movObj]], old(t).kids[t.par[movObj]];
           var k := if newPos == NIL then |was| - 1 else if newPos < 0 then 1 else newPos;
           0 <= k < |ks| == |was| && ks[k] == movObj && Without(ks, k) == Without(was, PlaceOf(old(t), movObj))
      ensures ok ==> (Valid() <==> movObj == ROOT || |old(t).kids[old(t).par[movObj]]| > 1)
      ensures !ok ==> Valid() && t == Removed(old(t), old(t).par[movObj], PlaceOf(old(t), movObj))
    {
      hide Threaded, Parents;
      if movObj == ROOT {
        return true;
      }
      Ends(movObj);
      var parent := GetPar(movObj);
      ghost var t0 := t;
      ParentRank(t, movObj);
      Ends(parent);
      Kid(parent, PlaceOf(t, movObj));
      ObDelete(movObj);
      OnlyOrMore(t0, movObj);
      ok := PutInLinks(movObj, parent, newPos);
      if ok {
        ReorderedIs(t0, movObj, newPos);
        ReorderedAt(t0, movObj, newPos);
      }
    }

    // The second half of ob_order: the object, taken out, is linked in again.
    method PutInLinks(movObj: int, parent: int, newPos: int) returns (ok: bool)
      requires Valid() && 0 <= movObj < N() && 0 <= parent < N() && movObj != ROOT && t.par[movObj] == NIL
      requires t.rank[movObj] < t.rank[parent]
      modifies this`next, this`head, this`tail, this`t
      ensures N() == old(N())
      ensures ok <==> CanOrder(newPos, |old(t).kids[parent]|)
      ensures ok ==> t == PutIn(old(t), parent, Index(newPos, |old(t).kids[parent]|), movObj)
      ensures ok ==> (Valid() <==> old(t).kids[parent] != [])
      ensures !ok ==> Valid() && t == old(t)
    {
      hide Threaded, Parents;
      Ends(parent);
      var next', head', tail';
      ok, next', head', tail' := OrderWrites(movObj, parent, newPos);
      if !ok {
        return;
      }
      ghost var rest, l, t1 := t.kids[parent], L(), t;
      ghost var k := Index(newPos, |rest|);
      PutInThreaded(l, t, N(), parent, k, movObj);
      hide LinkPutIn, Distinct, InArena;
      next, head, tail := next', head', tail';
      t := PutIn(t1, parent, k, movObj);
      hide PutIn;
      if rest == [] {
        KidsOfPutIn(t1, parent, k, movObj);
        NoTail(L(), t, N(), parent);
      } else {
        assert L() == LinkPutIn(l, rest, parent, k, movObj);
        StillComplete(looks, t1, t, L(), N());
      }
    }

    // The links that ob_order writes.
    method OrderWrites(movObj: int, parent: int, newPos: int)
      returns (ok: bool, next': seq<int>, head': seq<int>, tail': seq<int>)
      requires Valid() && 0 <= movObj < N() && 0 <= parent < N()
      ensures ok <==> CanOrder(newPos, |t.kids[parent]|)
      ensures |next'| == |head'| == |tail'| == N()
      ensures |head| == |tail| == N() && InArena(t.kids[parent], N())
      ensures ok && t.kids[parent] != [] ==>
        Links(next', head', tail') == LinkPutIn(L(), t.kids[parent], parent, Index(newPos, |t.kids[parent]|), movObj)
      ensures ok && t.kids[parent] == [] ==> tail'[parent] == NIL
    {
      hide Threaded, Parents;
      Ends(parent);
      ok := true;
      var chgObj := head[parent];
      next', head', tail' := next, head, tail;
      if newPos == 0 {
        if t.kids[parent] != [] {
          Kid(parent, 0);
        }
        next' := next'[movObj := chgObj];
        head' := head'[parent := movObj];
      } else {
        ok, chgObj := Before(parent, newPos);
        if !ok {
          return;
        }
        ghost var k := Index(newPos, |t.kids[parent]|);
        if k < |t.kids[parent]| {
          Kid(parent, k);
        }
        Kid(parent, k - 1);
        next' := next'[movObj := next'[chgObj]];
        next' := next'[chgObj := movObj];
      }
      if next'[movObj] == parent {
        tail' := tail'[parent := movObj];
      }
    }

    // The object behind which ob_order puts the moved one; not ok where the links lead to the parent or to no object.
    method Before(parent: int, newPos: int) returns (ok: bool, chgObj: int)
      requires Valid() && 0 <= parent < N() && newPos != 0
      ensures ok <==> CanOrder(newPos, |t.kids[parent]|)
      ensures ok ==> chgObj == t.kids[parent][Index(newPos, |t.kids[parent]|) - 1]
    {
      hide Threaded, Parents;
      Ends(parent);
      if newPos == NIL {
        return tail[parent] != NIL, tail[parent];
      }
      chgObj := head[parent];
      ok := chgObj != NIL;
      var ii := 1;
      while ok && ii < newPos
        invariant ok ==> ii <= |t.kids[parent]| && chgObj == t.kids[parent][ii - 1] && (ii <= newPos || ii == 1)
        invariant 1 <= ii && (!ok ==> t.kids[parent] == [] || |t.kids[parent]| < newPos)
        decreases newPos - ii, ok
      {
        Kid(parent, ii - 1);
        if ii < |t.kids[parent]| {
          Kid(parent, ii);
        }
        chgObj := next[chgObj];
        ii := ii + 1;
        ok := chgObj != parent;
      }
    }

    /**
     Visits an object and those below it down to maxdep levels, in the order of the recursive walk and at the offsets
     of that walk, up to the object last. The arrays are large enough for fewer than MAX_DEPTH levels.
     */
    method EveryObj(start: int, last: int, startx: int, starty: int, maxdep: int, ghost r: seq<int>)
      returns (log: seq<Visit>)
      requires Valid() && 0 <= start < N() && (start == ROOT || t.par[start] != NIL)
      requires start == ROOT || last == next[start] || (0 <= last < N() && Reached(looks, t, last, start, maxdep))
      requires RanksOk(t, r) && (maxdep + 1 < MAX_DEPTH || r[start] + 1 < MAX_DEPTH)
      ensures log == UpTo(Pre(looks, t, start, startx, starty, Max(maxdep, 0)), last)
      ensures InTree(t, log)
      ensures forall v :: 0 <= v < N() ==> (InWalk(log, v) <==> Meets(looks, t, v, start, maxdep, last))
      ensures forall i, j :: 0 <= i < j < |log| ==> Precedes(t, log[i].obj, log[j].obj)
      ensures |looks.x| == |looks.y| == |t.par|
      ensures forall j :: 0 <= j < |log| ==>
        && log[j].x == startx + Total(looks.x, t, log[j].obj) - Above(looks.x, t, start)
        && log[j].y == starty + Total(looks.y, t, log[j].obj) - Above(looks.y, t, start)
    {
      log := Walked(start, last, startx, starty, maxdep, r);
      hide Threaded, Parents, Pre, UpTo, Meets, Precedes, Reached;
      AllEnds();
      WalkIff(looks, t, start, startx, starty, maxdep, last);
      WalkOffsets(looks, t, start, startx, starty, maxdep, last);
    }

    lemma AllEnds()
      requires Valid()
      ensures Sized(L(), t, N()) && |t.par| == |t.kids| == N() && forall p :: 0 <= p < N() ==> Distinct(t.kids[p])
    {
      forall p | 0 <= p < N()
        ensures Distinct(t.kids[p])
      {
        Ends(p);
      }
      Ends(ROOT);
    }

    // The goto loop.
    method Walked(start: int, last: int, startx: int, starty: int, maxdep: int, ghost r: seq<int>)
      returns (log: seq<Visit>)
      requires Valid() && 0 <= start < N() && (start == ROOT || t.par[start] != NIL)
      requires start == ROOT || last == next[start] || (0 <= last < N() && Reached(looks, t, last, start, maxdep))
      requires RanksOk(t, r) && (maxdep + 1 < MAX_DEPTH || r[start] + 1 < MAX_DEPTH)
      ensures log == UpTo(Pre(looks, t, start, startx, starty, Max(maxdep, 0)), last)
    {
      hide Threaded, Parents, Pre, UpTo, Walking, InArena, Distinct, RanksOk, Spared, Reached;
      Ends(start);
      ghost var w := Walk(looks, t, startx, starty, Max(maxdep, 0));
      ghost var full := Pre(looks, t, start, startx, starty, Max(maxdep, 0));
      EndReached(full, start, last, startx, starty, maxdep);
      ghost var path: seq<int>, at: seq<nat> := [start], [0];
      var x, y := new int[MAX_DEPTH], new int[MAX_DEPTH];
      x[0] := startx;
      y[0] := starty;
      var depth, this_, child := 1, start, true;
      log := [];
      WalkStart(w, start, last, r, x[..], y[..]);
      while true
        invariant path != [] && depth == |path| && this_ == path[depth - 1] && path[0] == start
        invariant Walking(w, full, last, path, at, log, child, r, x[..], y[..])
        invariant x.Length == MAX_DEPTH && y.Length == MAX_DEPTH
        decreases |full| - |log|, if child then 0 else |path|
      {
        WalkFacts(w, full, last, path, at, log, child, r, x[..], y[..]);
        Ends(start);
        Ends(this_);
        if child {
          if this_ == last {
            return;
          }
          VisitHere(w, full, last, path, at, log, r, x[..], y[..]);
          x[depth] := x[depth - 1] + looks.x[this_];
          y[depth] := y[depth - 1] + looks.y[this_];
          log := log + [Visit(this_, x[depth], y[depth])];
          var tmp1 := head[this_];
          child := false;
          if tmp1 != NIL {
            if !looks.hidden[this_] && depth <= maxdep {
              path, at := path + [tmp1], at + [0];
              depth := depth + 1;
              this_ := tmp1;
              child := true;
            }
          }
        } else {
          var tmp1 := next[this_];
          if depth > 1 {
            Kid(path[depth - 2], at[depth - 1]);
          }
          LeaveHere(w, full, last, path, at, log, r, x[..], y[..]);
          if tmp1 == last || this_ == ROOT {
            return;
          }
          assert depth > 1;
          if tail[tmp1] != this_ {
            path, at := path[depth - 1 := tmp1], at[depth - 1 := at[depth - 1] + 1];
            this_ := tmp1;
            child := true;
          } else {
            path, at := path[..depth - 1], at[..depth - 1];
            depth := depth - 1;
            this_ := tmp1;
          }
        }
      }
    }

    lemma EndReached(full: seq<Visit>, start: int, last: int, startx: int, starty: int, maxdep: int)
      requires Valid() && 0 <= start < N() && full == Pre(looks, t, start, startx, starty, Max(maxdep, 0))
      requires start == ROOT || last == next[start] || (0 <= last < N() && Reached(looks, t, last, start, maxdep))
      ensures EndsThere(full, start, next[start], last)
    {
      Ends(start);
      hide Threaded, Parents, Pre, Reached;
      if 0 <= last < N() && Reached(looks, t, last, start, maxdep) {
        VisitedIff(looks, t, start, startx, starty, maxdep, last);
      }
    }

    // The offset at which an object's siblings are placed.
    method StartOffset(start: int) returns (ox: int, oy: int)
      requires Valid() && 0 <= start < N() && Rooted(start)
      ensures ox + looks.x[start] == Total(looks.x, t, start) && oy + looks.y[start] == Total(looks.y, t, start)
    {
      hide Threaded, Parents, Total, Below;
      Ends(start);
      ox, oy := 0, 0;
      RootedStep(start);
      if start != ROOT {
        var parent := GetPar(start);
        ox, oy := ObOffset(parent);
      }
    }

    /**
     objc_find: the last object under the point of the walk with the same limit of depth (lim stands for a negative
     depth, which is no limit).
     */
    method ObFind(start: int, depth0: int, mx: int, my: int, ghost lim: nat, ghost r: seq<int>) returns (lastfound: int)
      requires Valid() && 0 <= start < N() && Rooted(start)
      requires if depth0 >= 0 then lim == depth0 else RanksOk(t, r) && r[start] <= lim
      ensures lastfound == Found(looks, t, start, lim, mx, my)
      ensures LastReached(looks, t, start, lim, lastfound, mx, my)
    {
      hide Threaded, Parents, LastReached;
      Ends(start);
      FoundIsLast(looks, t, start, lim, mx, my);
      hide Total, Found, Below, Rooted, InArena, Distinct, Sized, RanksOk, Searching;
      lastfound := NIL;
      var currobj, depth := start, depth0;
      var ox, oy := StartOffset(start);
      var dosibs, done := false, false;
      ghost var d, i: nat := lim, 0;
      SearchStart(looks, t, start, lim, r, ox, oy, depth, mx, my);
      while !done
        invariant 0 <= currobj < N()
        invariant !done ==>
          Searching(looks, t, start, lim, r, mx, my, Search(lastfound, currobj, ox, oy, depth, dosibs, d, i))
        invariant done ==> lastfound == Found(looks, t, start, lim, mx, my)
        decreases !done, d, if dosibs then i else 0
      {
        var px, py := looks.x[currobj] + ox, looks.y[currobj] + oy;
        Ends(currobj);
        SearchStep(looks, t, start, lim, r, mx, my, Search(lastfound, currobj, ox, oy, depth, dosibs, d, i));
        if Contains(Rect(px, py, looks.w[currobj], looks.h[currobj]), mx, my) && !looks.hidden[currobj] {
          lastfound := currobj;
          var childobj := tail[currobj];
          if childobj != NIL && depth != 0 {
            i := |t.kids[currobj]| - 1;
            d := d - 1;
            currobj := childobj;
            depth := depth - 1;
            ox, oy := px, py;
            dosibs := true;
          } else {
            done := true;
          }
        } else if dosibs && lastfound != NIL {
          var prev := GetPrev(lastfound, currobj, i);
          if prev == NIL {
            done := true;
          } else {
            i := i - 1;
            currobj := prev;
          }
        } else {
          done := true;
        }
      }
    }
  }

  // Where ob_find stands: the object found so far, the one to look at next, at which offset, the depth left, and
  // whether it is a child of the one found, the i-th.
  datatype Search = Search(found: int, cur: int, ox: int, oy: int, depth: int, down: bool, d: nat, i: nat)

  ghost predicate Searching(k: Looks, t: Shape, start: int, lim: nat, r: seq<int>, mx: int, my: int, s: Search)
    requires Complete(k, t) && 0 <= start < |t.kids|
  {
    && 0 <= s.cur < |t.kids|
    && s.ox + k.x[s.cur] == Total(k.x, t, s.cur) && s.oy + k.y[s.cur] == Total(k.y, t, s.cur)
    && (if s.depth >= 0 then s.d == s.depth else RanksOk(t, r) && r[s.cur] <= s.d)
    && if !s.down then s.found == NIL && s.cur == start && s.d == lim
       else
         && Among(k, t, s.found, s.i, s.cur, s.d, mx, my)
         && s.ox == Total(k.x, t, s.found) && s.oy == Total(k.y, t, s.found)
         && Found(k, t, start, lim, mx, my) == OrBelow(k, t, s.found, s.d, mx, my)
         && (s.depth < 0 ==> r[s.found] <= s.d + 1)
  }

  lemma SearchStart(k: Looks, t: Shape, start: int, lim: nat, r: seq<int>, ox: int, oy: int, depth: int, mx: int,
                    my: int)
    requires Complete(k, t) && 0 <= start < |t.kids|
    requires if depth >= 0 then lim == depth else RanksOk(t, r) && r[start] <= lim
    requires ox + k.x[start] == Total(k.x, t, start) && oy + k.y[start] == Total(k.y, t, start)
    ensures Searching(k, t, start, lim, r, mx, my, Search(NIL, start, ox, oy, depth, false, lim, 0))
  {
  }

  /** Every way one turn of ob_find's loop can go. */
  lemma SearchStep(k: Looks, t: Shape, start: int, lim: nat, r: seq<int>, mx: int, my: int, s: Search)
    requires Complete(k, t) && 0 <= start < |t.kids| && Searching(k, t, start, lim, r, mx, my, s)
    ensures
      var px, py := k.x[s.cur] + s.ox, k.y[s.cur] + s.oy;
      var found, kids := Found(k, t, start, lim, mx, my), t.kids[s.cur];
      if Contains(Rect(px, py, k.w[s.cur], k.h[s.cur]), mx, my) && !k.hidden[s.cur] then
        if kids != [] && s.depth != 0 then
          && s.d > 0 && 0 <= LastOf(kids) < |t.kids|
          && Searching(k, t, start, lim, r, mx, my,
            Search(s.cur, LastOf(kids), px, py, s.depth - 1, true, s.d - 1, |kids| - 1))
        else found == s.cur
      else if s.down then
        && 0 <= s.found < |t.kids| && s.i < |t.kids[s.found]| && s.cur == t.kids[s.found][s.i]
        && if s.i > 0
           then Searching(k, t, start, lim, r, mx, my, s.(cur := t.kids[s.found][s.i - 1], i := s.i - 1))
           else found == s.found
      else found == s.found
  {
    FoundHere(k, t, s.cur, s.d, mx, my);
    if s.down {
      AmongStep(k, t, s.found, s.i, s.cur, s.d, mx, my);
    }
    assert UnderPoint(k, t, s.cur, mx, my) <==>
      Contains(Rect(k.x[s.cur] + s.ox, k.y[s.cur] + s.oy, k.w[s.cur], k.h[s.cur]), mx, my) && !k.hidden[s.cur];
    hide Found, OrBelow, UnderPoint, Among, Contains;
    if t.kids[s.cur] != [] {
      assert ChildOk(t, s.cur, LastOf(t.kids[s.cur]));
      KidTotal(k, t, LastOf(t.kids[s.cur]));
      if s.depth < 0 {
        RanksFall(t, r);
        assert r[t.kids[s.cur][|t.kids[s.cur]| - 1]] < r[s.cur];
      }
    }
    if s.down {
      AmongIs(k, t, s.found, s.i, s.cur, s.d, mx, my);
      if s.i > 0 {
        assert ChildOk(t, s.found, t.kids[s.found][s.i - 1]);
        KidTotal(k, t, t.kids[s.found][s.i - 1]);
        if s.depth < 0 {
          RanksFall(t, r);
          assert r[t.kids[s.found][s.i - 1]] < r[s.found];
        }
      }
    }
  }

  lemma AmongIs(k: Looks, t: Shape, p: int, i: nat, c: int, d: nat, mx: int, my: int)
    requires Complete(k, t) && Among(k, t, p, i, c, d, mx, my)
    ensures 0 <= p < |t.kids| && i < |t.kids[p]| && c == t.kids[p][i]
  {
  }

  // o, unless something below it is found.
  ghost function OrBelow(k: Looks, t: Shape, o: int, d: nat, mx: int, my: int): int
    requires Complete(k, t) && 0 <= o < |t.kids|
  {
    var b := FoundAll(k, t, o, 0, d, mx, my);
    if b == NIL then o else b
  }

  // c is the i-th child of p, and no child behind it is hit.
  ghost predicate Among(k: Looks, t: Shape, p: int, i: nat, c: int, d: nat, mx: int, my: int)
    requires Complete(k, t)
  {
    0 <= p < |t.kids| && i < |t.kids[p]| && c == t.kids[p][i] && FoundAll(k, t, p, i + 1, d, mx, my) == NIL
  }

  lemma FoundHere(k: Looks, t: Shape, o: int, d: nat, mx: int, my: int)
    requires Complete(k, t) && 0 <= o < |t.kids|
    ensures Found(k, t, o, d, mx, my) ==
      if !UnderPoint(k, t, o, mx, my) then NIL
      else if d == 0 || t.kids[o] == [] then o
      else OrBelow(k, t, o, d - 1, mx, my)
    ensures t.kids[o] != [] && d > 0 ==>
      0 <= LastOf(t.kids[o]) < |t.kids| && Among(k, t, o, |t.kids[o]| - 1, LastOf(t.kids[o]), d - 1, mx, my)
  {
    if t.kids[o] != [] {
      assert ChildOk(t, o, t.kids[o][|t.kids[o]| - 1]);
    }
  }

  lemma AmongStep(k: Looks, t: Shape, p: int, i: nat, c: int, d: nat, mx: int, my: int)
    requires Complete(k, t) && Among(k, t, p, i, c, d, mx, my)
    ensures 0 <= c < |t.kids|
    ensures UnderPoint(k, t, c, mx, my) ==> OrBelow(k, t, p, d, mx, my) == Found(k, t, c, d, mx, my)
    ensures !UnderPoint(k, t, c, mx, my) && i == 0 ==> OrBelow(k, t, p, d, mx, my) == p
    ensures !UnderPoint(k, t, c, mx, my) && i > 0 ==> Among(k, t, p, i - 1, t.kids[p][i - 1], d, mx, my)
  {
    assert ChildOk(t, p, c);
    FoundHere(k, t, c, d, mx, my);
    if UnderPoint(k, t, c, mx, my) {
      HitFound(k, t, c, d, mx, my);
      FoundFromLater(k, t, p, i, d, mx, my);
    }
  }

  lemma HitFound(k: Looks, t: Shape, o: int, d: nat, mx: int, my: int)
    requires Complete(k, t) && 0 <= o < |t.kids| && UnderPoint(k, t, o, mx, my)
    ensures Found(k, t, o, d, mx, my) != NIL
  {
  }

  lemma KidTotal(k: Looks, t: Shape, c: int)
    requires Complete(k, t) && 0 <= c < |t.kids| && t.par[c] != NIL
    ensures 0 <= t.par[c] < |t.kids|
    ensures Total(k.x, t, c) == Total(k.x, t, t.par[c]) + k.x[c]
    ensures Total(k.y, t, c) == Total(k.y, t, t.par[c]) + k.y[c]
  {
    ParentRank(t, c);
  }

  // A position that ob_order can find among n other children.
  predicate CanOrder(newPos: int, n: int) {
    newPos == 0 || (n > 0 && newPos <= n)
  }

  // The place an object gets for a position given to ob_order, among n others.
  function Index(newPos: int, n: nat): (k: int)
    requires newPos <= n && (n == 0 ==> newPos == 0)
    ensures 0 <= k <= n && (newPos == 0 <==> k == 0)
  {
    if newPos == NIL then n else if newPos < 0 then 1 else newPos
  }

  // The tree with the object moved.
  ghost function Reordered(t: Shape, o: int, newPos: int): Shape
    requires Parents(t) && 0 <= o < |t.par| && t.par[o] != NIL && 0 <= t.par[o] < |t.kids|
    requires newPos < |t.kids[t.par[o]]| && (newPos != 0 ==> |t.kids[t.par[o]]| > 1)
  {
    var p, i := t.par[o], PlaceOf(t, o);
    var ks := t.kids[p];
    var rest := Without(ks, i);
    Shape(t.kids[p := Inserted(rest, Index(newPos, |rest|), o)], t.par, t.rank)
  }

  // The object stands at its new place, the others keep their order.
  lemma ReorderedAt(t: Shape, o: int, newPos: int)
    requires Parents(t) && 0 <= o < |t.par| && t.par[o] != NIL && 0 <= t.par[o] < |t.kids|
    requires newPos < |t.kids[t.par[o]]| && (newPos != 0 ==> |t.kids[t.par[o]]| > 1)
    ensures
      var ks, was := Reordered(t, o, newPos).kids[t.par[o]], t.kids[t.par[o]];
      var k := if newPos == NIL then |was| - 1 else if newPos < 0 then 1 else newPos;
      0 <= k < |ks| == |was| && ks[k] == o && Without(ks, k) == Without(was, PlaceOf(t, o))
  {
    var was := t.kids[t.par[o]];
    var rest := Without(was, PlaceOf(t, o));
    var k := Index(newPos, |rest|);
    assert Inserted(rest, k, o)[k] == o;
    assert Without(Inserted(rest, k, o), k) == rest;
  }

  lemma NoTail(l: Links, t: Shape, n: nat, p: int)
    requires |l.tail| == n && |t.kids| == n && 0 <= p < n && t.kids[p] != [] && l.tail[p] == NIL
    ensures !Threaded(l, t, n)
  {
    if Threaded(l, t, n) {
      FamilyAt(l, t, n, p);
      assert false;
    }
  }

  lemma KidsOfPutIn(t: Shape, p: int, k: nat, c: int)
    requires 0 <= p < |t.kids| && k <= |t.kids[p]| && 0 <= c < |t.par|
    ensures |PutIn(t, p, k, c).kids| == |t.kids| && PutIn(t, p, k, c).kids[p] != []
  {
  }

  lemma OnlyOrMore(t: Shape, o: int)
    requires Parents(t) && 0 <= o < |t.par| && t.par[o] != NIL && 0 <= t.par[o] < |t.kids|
    ensures var t' := Removed(t, t.par[o], PlaceOf(t, o));
      |t'.kids[t.par[o]]| == |t.kids[t.par[o]]| - 1 && t'.par[o] == NIL && t'.rank == t.rank
  {
  }

  lemma ReorderedIs(t: Shape, o: int, newPos: int)
    requires Parents(t) && 0 <= o < |t.par| && t.par[o] != NIL && 0 <= t.par[o] < |t.kids|
    requires newPos < |t.kids[t.par[o]]| && (newPos != 0 ==> |t.kids[t.par[o]]| > 1)
    ensures
      var t' := Removed(t, t.par[o], PlaceOf(t, o));
      Reordered(t, o, newPos) == PutIn(t', t.par[o], Index(newPos, |t'.kids[t.par[o]]|), o)
  {
    var p, i := t.par[o], PlaceOf(t, o);
    var t' := Removed(t, p, i);
    assert t'.par[o := p] == t.par;
  }

  lemma StillComplete(k: Looks, t: Shape, t': Shape, l: Links, n: nat)
    requires Complete(k, t) && Threaded(l, t', n) && |t'.kids| == |t.kids|
    ensures Complete(k, t')
  {
  }

  // Head and tail of the children with the i-th taken out.
  lemma OnlyOne(ks: seq<int>, i: nat)
    requires Distinct(ks) && i < |ks|
    ensures ks[0] == ks[i] <==> i == 0
    ensures LastOf(ks) == ks[i] <==> i == |ks| - 1
    ensures Head(Without(ks, i), NIL) == if i > 0 then ks[0] else After(ks, 0, NIL)
    ensures LastOf(Without(ks, i)) == if i < |ks| - 1 then LastOf(ks) else if i > 0 then ks[i - 1] else NIL
  {
  }
}
