/** Getting and giving back open files and memory descriptors; compaction of half-empty blocks (bdos/osmem.c). */
module MemPool {
  import opened Chains
  import opened BlockPool

  // The first a slots of block b are not free.
  ghost predicate Taken(own: seq<int>, b: int, a: int) {
    && (a > 0 ==> FreeAt(own, 4 * b) == 0) && (a > 1 ==> FreeAt(own, 4 * b + 1) == 0)
    && (a > 2 ==> FreeAt(own, 4 * b + 2) == 0) && (a > 3 ==> FreeAt(own, 4 * b + 3) == 0)
  }

  // No free descriptor outside block p comes before slot a of the k-th block.
  ghost predicate NoneBefore(own: seq<int>, flag: seq<int>, bl: seq<int>, p: int, k: nat, a: int) {
    && k <= |bl|
    && (forall j :: 0 <= j < k && bl[j] != p ==> Weight(own, flag, bl[j]) == 0)
    && (k < |bl| && 0 <= bl[k] < |flag| && flag[bl[k]] > 0 ==> Taken(own, bl[k], a))
  }

  // Places outside block p are the same, those in it may have moved out.
  ghost predicate Moving(c: seq<int>, c': seq<int>, p: int) {
    |c'| == |c| && forall i :: 0 <= i < |c| ==> c'[i] == c[i] || (c[i] / 4 == p && c'[i] / 4 != p)
  }

  // None is in p any more.
  ghost predicate Away(c: seq<int>, c': seq<int>, p: int) {
    Moving(c, c', p) && forall i :: 0 <= i < |c| ==> c'[i] / 4 != p
  }

  // Slots of block p before idx are free; where lists led there, they lead elsewhere now.
  ghost predicate Emptied(kind0: seq<int>, kind: seq<int>, own: seq<int>, p: int, idx: int) {
    && |kind| == |kind0| == |own| && 0 <= p && 4 * p + 4 <= |own| && 0 <= idx <= 4
    && (forall i :: 4 * p <= i < 4 * p + idx ==> own[i] == MF_FREE && kind[i] == FREE)
    && (forall m :: 0 <= m < |kind| && m / 4 != p && kind0[m] != FREE ==> kind[m] == kind0[m])
    && (forall m :: 0 <= m < |kind| && kind[m] == LOOSE ==> kind0[m] == LOOSE)
  }

  class MdPool {
    var blink: seq<int>
    var flag: seq<int>
    var ofdlist: int
    var mlink: seq<int>
    var start: seq<int>
    var length: seq<int>
    var own: seq<int>
    var mfl: int
    var mal: int
    ghost var s: Shape

    ghost function B(): Blocks
      reads this
    {
      Blocks(blink, flag)
    }

    ghost function D(): Descs
      reads this
    {
      Descs(mlink, start, length, own, mfl, mal)
    }

    ghost predicate Valid()
      reads this
    {
      Sound(B(), ofdlist, D(), s, |blink|)
    }

    // No block has been given to the pool yet; n is how many ever will be.
    constructor (n: nat)
      ensures Valid() && s.bl == [] && s.cf == [] && s.ca == [] && |blink| == n
    {
      blink, flag, ofdlist := seq(n, _ => NIL), seq(n, _ => 0), NIL;
      mlink, start, length, own := seq(4 * n, _ => NIL), seq(4 * n, _ => 0), seq(4 * n, _ => 0), seq(4 * n, _ => 0);
      mfl, mal := NIL, NIL;
      s := Shape([], seq(4 * n, _ => FREE), [], []);
    }

    lemma Sizes()
      requires Valid()
      ensures |flag| == |blink| && |mlink| == |start| == |length| == |own| == |s.kind| == 4 * |blink|
      ensures InArena(s.bl, |blink|) && Distinct(s.bl) && ofdlist == Head(s.bl, NIL)
      ensures InArena(s.cf, |own|) && InArena(s.ca, |own|)
    {
      HoldsFacts(mlink, mfl, s.cf, s.kind, ON_MFL);
      HoldsFacts(mlink, mal, s.ca, s.kind, ON_MAL);
    }

    lemma NextBlock(k: nat)
      requires Valid() && k < |s.bl|
      ensures 0 <= s.bl[k] < |blink| && blink[s.bl[k]] == After(s.bl, k, NIL)
      ensures After(s.bl, k, NIL) == NIL <==> k == |s.bl| - 1
    {
      assert Linked(blink, s.bl, NIL);
    }

    lemma SlotAt(m: int)
      requires Valid() && 0 <= m < |s.kind|
      ensures |own| == |s.kind| == 4 * |flag|
      ensures s.kind[m] in {FREE, ON_MFL, ON_MAL, LOOSE}
      ensures s.kind[m] != FREE ==> flag[m / 4] > 0 && m / 4 in s.bl && own[m] != MF_FREE
      ensures s.kind[m] == FREE && flag[m / 4] > 0 && m / 4 in s.bl ==> own[m] == MF_FREE
    {
      assert InUse(B(), s.bl, m) <==> flag[m / 4] > 0 && m / 4 in s.bl;
    }

    /** mdfind: the next free descriptor from slot a of block p1 on, outside block p. */
    method MdFind(p1: int, a: int, p: int, ghost k: nat) returns (q: int, i: int, m: int, ghost k': nat)
      requires Valid() && NoneBefore(own, flag, s.bl, p, k, a) && 0 <= a <= 4
      requires p1 == (if k < |s.bl| then s.bl[k] else NIL) && p1 != p && p != NIL
      ensures m == NIL ==> forall j :: 0 <= j < |s.bl| && s.bl[j] != p ==> Weight(own, flag, s.bl[j]) == 0
      ensures m != NIL ==>
        && k' < |s.bl| && q == s.bl[k'] && q != p && 0 <= i < 4 && m == 4 * q + i && 0 <= q < |flag| && flag[q] > 0
        && 0 <= m < |own| && own[m] == MF_FREE && NoneBefore(own, flag, s.bl, p, k', i)
    {
      hide Sound, Weight;
      Sizes();
      q, i, m, k' := p1, a, NIL, k;
      while q != NIL
        invariant k' <= |s.bl| && q == (if k' < |s.bl| then s.bl[k'] else NIL) && q != p && 0 <= i <= 4
        invariant NoneBefore(own, flag, s.bl, p, k', i) && m == NIL
        decreases |s.bl| - k'
      {
        Sizes();
        NextBlock(k');
        if flag[q] > 0 {
          m := 4 * q + i;
          while i < 4
            invariant 0 <= i <= 4 && m == 4 * q + i && NoneBefore(own, flag, s.bl, p, k', i)
          {
            if own[m] == MF_FREE {
              return;
            }
            i, m := i + 1, m + 1;
          }
          m := NIL;
        }
        NothingIn(own, flag, q);
        q := blink[q];
        k' := k' + 1;
        if q == p {
          NextBlock(k');
          q := blink[q];
          k' := k' + 1;
        }
        i := 0;
        DistinctBlocks(s.bl, k' - 1, k');
      }
    }

    // Looks for a descriptor on a list; prev is the one in front of it, or NIL.
    method Seek(root: int, m: int, ghost c: seq<int>) returns (found: bool, prev: int, ghost k: nat)
      requires Chain(mlink, root, c)
      ensures found <==> m in c
      ensures found ==> k < |c| && c[k] == m && prev == (if k == 0 then NIL else c[k - 1])
    {
      prev, k := NIL, 0;
      var q := root;
      while q != NIL
        invariant k <= |c| && q == (if k < |c| then c[k] else NIL) && prev == (if k == 0 then NIL else c[k - 1])
        invariant m !in c[..k]
        decreases |c| - k
      {
        assert Linked(mlink, c, NIL) && 0 <= c[k] < |mlink| && mlink[c[k]] == After(c, k, NIL);
        if q == m {
          return true, prev, k;
        }
        assert c[..k + 1] == c[..k] + [c[k]];
        prev := q;
        q := mlink[q];
        k := k + 1;
      }
      assert c[..k] == c;
      found := false;
    }

    /** mdlink: copies descriptor m to slot e and leads its list there; a descriptor on no list stays as it is. */
    method Mdlink(m: int, e: int) returns (moved: bool, ghost k: nat)
      requires Valid() && 0 <= m < |s.kind| && s.kind[m] != FREE && 0 <= e < |s.kind| && s.kind[e] == FREE
      modifies this`mlink, this`start, this`length, this`own, this`mfl, this`mal
      ensures moved == (s.kind[m] != LOOSE)
      ensures !moved ==> D() == old(D())
      ensures moved ==> Carried(old(D()), s, m, k, e, D())
    {
      hide Sound, InArena, Distinct, Chain, InUse, Lists, Moved, LinkMoved;
      Sizes();
      SlotAt(m);
      ListFacts(m);
      var i := 0;
      var found, prev;
      found, prev, k := Seek(mfl, m, s.cf);
      if !found {
        i := 1;
        found, prev, k := Seek(mal, m, s.ca);
      }
      if !found {
        return false, k;
      }
      CopyTo(m, e, prev, i == 0, if i == 0 then s.cf else s.ca, k);
      moved := true;
    }

    // The writes of mdlink for a descriptor found at position k of list c.
    method CopyTo(m: int, e: int, prev: int, onMfl: bool, ghost c: seq<int>, ghost k: nat)
      requires k < |c| && c[k] == m && prev == (if k == 0 then NIL else c[k - 1])
      requires InArena(c, |mlink|) && 0 <= e < |mlink| == |start| == |length| == |own|
      modifies this`mlink, this`start, this`length, this`own, this`mfl, this`mal
      ensures D() == Moved(old(D()), c, k, e, onMfl)
    {
      assert k > 0 ==> 0 <= c[k - 1] < |mlink|;
      mlink := mlink[e := mlink[m]];
      start := start[e := start[m]];
      length := length[e := length[m]];
      own := own[e := own[m]];
      if prev != NIL {
        mlink := mlink[prev := e];
      } else if onMfl {
        mfl := e;
      } else {
        mal := e;
      }
    }

    /**
     mdlink, and the freeing of the descriptor that follows it: descriptor m moves to the free slot e. A descriptor on
     no list is not moved and is free afterwards all the same.
     */
    method Relocate(m: int, e: int)
      requires Valid() && 0 <= m < |s.kind| && s.kind[m] != FREE && 0 <= e < |s.kind| && s.kind[e] == FREE
      requires m / 4 != e / 4
      requires InUse(B(), s.bl, e)
      modifies this`mlink, this`start, this`length, this`own, this`mfl, this`mal, this`s
      ensures Valid() && Gone(old(D()), old(s), D(), s, m, e)
    {
      hide Sound, InUse, Carried, Gone;
      ghost var d0, s0 := D(), s;
      var moved;
      ghost var k;
      moved, k := Mdlink(m, e);
      if moved {
        s := CarriedSound(B(), ofdlist, d0, s0, |blink|, m, k, e, D());
      } else {
        LooseSound(B(), ofdlist, d0, s0, |blink|, m);
        s := s0.(kind := s0.kind[m := FREE]);
      }
      own := own[m := MF_FREE];
    }

    lemma ListFacts(m: int)
      requires Valid() && 0 <= m < |s.kind| && s.kind[m] != FREE
      ensures Chain(mlink, mfl, s.cf) && Chain(mlink, mal, s.ca)
      ensures m in s.cf <==> s.kind[m] == ON_MFL
      ensures m in s.ca <==> s.kind[m] == ON_MAL
      ensures Lists(D(), s)
    {
      HoldsFacts(mlink, mfl, s.cf, s.kind, ON_MFL);
      HoldsFacts(mlink, mal, s.ca, s.kind, ON_MAL);
    }

    // The free descriptors of block q.
    method CountFree(q: int) returns (thisfree: int)
      requires 0 <= q && 4 * q + 4 <= |own|
      ensures thisfree == FreeOf(own, q)
    {
      thisfree := 0;
      var x, i := 4 * q, 0;
      while i < 4
        invariant 0 <= i <= 4 && x == 4 * q + i && thisfree == FreeFirst(own, q, i)
      {
        if own[x] == MF_FREE {
          thisfree := thisfree + 1;
        }
        i, x := i + 1, x + 1;
      }
    }

    /**
     The second half of getosm: every used descriptor of block p moves to a free slot elsewhere, of which there are
     enough; k is the place of p1.
     */
    method Compact(p: int, first: int, ghost k0: nat)
      requires Valid() && p in s.bl && 0 <= p < |flag| && flag[p] > 0 && Weight(own, flag, p) < 4
      requires Total(own, flag, s.bl) >= 4 && NoneBefore(own, flag, s.bl, p, k0, 0)
      requires first == (if k0 < |s.bl| then s.bl[k0] else NIL) && first != p
      modifies this`mlink, this`start, this`length, this`own, this`mfl, this`mal, this`s
      ensures Valid() && s.bl == old(s.bl) && SameListed(old(D()), old(s), D(), s)
      ensures Emptied(old(s.kind), s.kind, own, p, 4)
      ensures Away(old(s.cf), s.cf, p) && Away(old(s.ca), s.ca, p)
    {
      hide Sound, Total, Weight, NoneBefore, SameListed, Moving, Emptied, InArena, Distinct;
      Sizes();
      Unmoved();
      var p1, a := first, 0;
      ghost var k: nat := k0;
      var idx := SkipFree(p, 0);
      ghost var own0, kind0 := own, s.kind;
      EmptiedStart(p, idx);
      NotAllFree(own, flag, p, idx);
      while idx < 4
        invariant Valid() && s.bl == old(s.bl) && |own| == 4 * |blink| && |flag| == |blink|
        invariant 0 <= idx <= 4 && (idx < 4 ==> own[4 * p + idx] != MF_FREE)
        invariant Total(own, flag, s.bl) >= 4 && NoneBefore(own, flag, s.bl, p, k, a) && 0 <= a <= 4
        invariant p1 == (if k < |s.bl| then s.bl[k] else NIL) && p1 != p
        invariant SameListed(old(D()), old(s), D(), s)
        invariant Emptied(kind0, s.kind, own, p, idx)
        invariant Moving(old(s.cf), s.cf, p) && Moving(old(s.ca), s.ca, p)
        decreases 4 - idx
      {
        var x, p2 := 4 * p + idx, NIL;
        p1, a, p2, k := MdFind(p1, a, p, k);
        PlaceLeft(x, p, p1, p2, k);
        ghost var own1, s1, d1 := own, s, D();
        Relocate(x, p2);
        SameTwice(old(D()), old(s), d1, s1, D(), s);
        AfterMove(own1, own, flag, s.bl, p, x, p2, k, a);
        MovingTwice(old(s.cf), s1.cf, s.cf, p);
        MovingTwice(old(s.ca), s1.ca, s.ca, p);
        Sizes();
        EmptiedStep(kind0, s1.kind, own1, s.kind, own, p, idx, p2);
        idx := SkipFree(p, idx + 1);
        EmptiedMore(kind0, p, (x - 4 * p) + 1, idx);
      }
      AllAway(old(s.cf), old(s.ca), kind0, p);
    }

    // The next slot of block p, from idx on, that is not free.
    method SkipFree(p: int, idx0: int) returns (idx: int)
      requires 0 <= p && 4 * p + 4 <= |own| && 0 <= idx0 <= 4
      ensures idx0 <= idx <= 4 && (idx < 4 ==> own[4 * p + idx] != MF_FREE)
      ensures forall i :: 4 * p + idx0 <= i < 4 * p + idx ==> own[i] == MF_FREE
    {
      idx := idx0;
      while idx < 4 && own[4 * p + idx] == MF_FREE
        invariant idx0 <= idx <= 4
        invariant forall i :: 4 * p + idx0 <= i < 4 * p + idx ==> own[i] == MF_FREE
      {
        idx := idx + 1;
      }
    }

    lemma Unmoved()
      requires Valid()
      ensures SameListed(D(), s, D(), s)
      ensures forall p :: Moving(s.cf, s.cf, p) && Moving(s.ca, s.ca, p)
    {
      Sizes();
    }

    lemma FreeKind(p: int, i: int)
      requires Valid() && p in s.bl && 0 <= p < |flag| && flag[p] > 0 && 4 * p <= i < 4 * p + 4
      ensures 0 <= i < |own| == |s.kind| && (own[i] == MF_FREE <==> s.kind[i] == FREE) && InUse(B(), s.bl, i)
    {
      SlotAt(i);
    }

    lemma EmptiedStart(p: int, idx: int)
      requires Valid() && p in s.bl && 0 <= p < |flag| && flag[p] > 0 && 0 <= idx <= 4 && |own| == 4 * |flag|
      requires forall i :: 4 * p <= i < 4 * p + idx ==> own[i] == MF_FREE
      ensures Emptied(s.kind, s.kind, own, p, idx)
    {
      forall i | 4 * p <= i < 4 * p + idx
        ensures s.kind[i] == FREE
      {
        FreeKind(p, i);
      }
      Sizes();
    }

    lemma EmptiedMore(kind0: seq<int>, p: int, idx0: int, idx: int)
      requires Valid() && p in s.bl && 0 <= p < |flag| && flag[p] > 0 && 0 <= idx0 <= idx <= 4 && |own| == 4 * |flag|
      requires Emptied(kind0, s.kind, own, p, idx0)
      requires forall i :: 4 * p + idx0 <= i < 4 * p + idx ==> own[i] == MF_FREE
      ensures Emptied(kind0, s.kind, own, p, idx)
    {
      forall i | 4 * p + idx0 <= i < 4 * p + idx
        ensures s.kind[i] == FREE
      {
        FreeKind(p, i);
      }
    }

    /** There is a free descriptor elsewhere for each that is left in block p. */
    lemma PlaceLeft(x: int, p: int, q: int, e: int, k: nat)
      requires Valid() && p in s.bl && 0 <= p < |flag| && flag[p] > 0 && Total(own, flag, s.bl) >= 4
      requires 4 * p <= x < 4 * p + 4 && |own| == 4 * |flag| && own[x] != MF_FREE
      requires e == NIL ==> forall j :: 0 <= j < |s.bl| && s.bl[j] != p ==> Weight(own, flag, s.bl[j]) == 0
      requires e != NIL ==>
        && k < |s.bl| && q == s.bl[k] && q != p && 0 <= q < |flag| && flag[q] > 0
        && 4 * q <= e < 4 * q + 4 && own[e] == MF_FREE
      ensures e != NIL && 0 <= x < |s.kind| && s.kind[x] != FREE && 0 <= e < |s.kind| && s.kind[e] == FREE
      ensures x / 4 == p && e / 4 == q && q != p && q in s.bl && InUse(B(), s.bl, e)
    {
      hide Sound, Total, Weight, InUse, InArena, Distinct;
      Sizes();
      WeightRange(own, flag, p);
      SomeTaken(own, flag, p, x);
      if e == NIL {
        FreeElsewhere(own, flag, s.bl, p);
        assert false;
      }
      FreeKind(p, x);
      FreeKind(q, e);
    }

    // A block with a descriptor in use has at most three free ones.
    lemma SomeTaken(own: seq<int>, flag: seq<int>, p: int, x: int)
      requires 4 * p <= x < 4 * p + 4 && 0 <= x < |own| && own[x] != MF_FREE
      ensures Weight(own, flag, p) < 4
    {
      assert FreeAt(own, x) == 0;
      assert x == 4 * p || x == 4 * p + 1 || x == 4 * p + 2 || x == 4 * p + 3;
    }

    lemma AllAway(cf0: seq<int>, ca0: seq<int>, kind0: seq<int>, p: int)
      requires Valid() && Emptied(kind0, s.kind, own, p, 4) && Moving(cf0, s.cf, p) && Moving(ca0, s.ca, p)
      ensures Away(cf0, s.cf, p) && Away(ca0, s.ca, p)
    {
      HoldsFacts(mlink, mfl, s.cf, s.kind, ON_MFL);
      HoldsFacts(mlink, mal, s.ca, s.kind, ON_MAL);
    }

    /**
     getosm: with four free descriptors in all, a block of four is always found or made, and the lists do not notice.
     It is the k-th block, the one that was chosen before the call. Descriptors that are on no list are kept exactly if
     none of them lies in that block.
     */
    method GetOsm() returns (p: int, ghost k: nat)
      requires Valid() && Total(own, flag, s.bl) >= 4
      modifies this`mlink, this`start, this`length, this`own, this`mfl, this`mal, this`s
      ensures Valid() && s.bl == old(s.bl) && SameListed(old(D()), old(s), D(), s)
      ensures Chosen(old(own), flag, s.bl, k) && p == s.bl[k]
      ensures p in s.bl && 0 <= p < |flag| && flag[p] > 0 && Emptied(old(s.kind), s.kind, own, p, 4)
      ensures Away(old(s.cf), s.cf, p) && Away(old(s.ca), s.ca, p)
      ensures |s.kind| == |old(s.kind)|
      ensures
        (forall m :: 0 <= m < |s.kind| && old(s.kind)[m] == LOOSE ==> s.kind[m] == LOOSE)
        <==> (forall m :: 0 <= m < |s.kind| && old(s.kind)[m] == LOOSE ==> m / 4 != p)
    {
      var kind0 := s.kind;
      p, k := MakeBlock();
      LooseKeptIff(kind0, s.kind, own, p);
    }

    method MakeBlock() returns (p: int, ghost kp: nat)
      requires Valid() && Total(own, flag, s.bl) >= 4
      modifies this`mlink, this`start, this`length, this`own, this`mfl, this`mal, this`s
      ensures Valid() && s.bl == old(s.bl) && SameListed(old(D()), old(s), D(), s)
      ensures Chosen(old(own), flag, s.bl, kp) && p == s.bl[kp]
      ensures p in s.bl && 0 <= p < |flag| && flag[p] > 0 && Emptied(old(s.kind), s.kind, own, p, 4)
      ensures Away(old(s.cf), s.cf, p) && Away(old(s.ca), s.ca, p)
    {
      hide Sound, Total, Weight, SameListed, Moving, Emptied, InArena, Distinct, Away, Chosen;
      Sizes();
      Unmoved();
      var p1, maxfree;
      ghost var k1;
      p, p1, maxfree, k1, kp := Pick();
      if maxfree == MDS_PER_BLOCK {
        AllFree(p);
        return;
      }
      if p1 == p {
        NextBlock(kp);
        p1 := blink[p];
        k1 := kp + 1;
        if p1 == NIL {
          p := NIL;
          return;
        }
      }
      Compact(p, p1, k1);
    }

    // The search of getosm: the block p with the most free descriptors, and the first one, p1, with any.
    method Pick() returns (p: int, p1: int, maxfree: int, ghost k1: nat, ghost kp: nat)
      requires Valid() && Total(own, flag, s.bl) >= 4
      ensures p in s.bl && 0 <= p < |flag| && flag[p] > 0 && FreeOf(own, p) == maxfree == Weight(own, flag, p)
      ensures kp < |s.bl| && s.bl[kp] == p
      ensures maxfree < 4 && p1 == p ==>
        kp + 1 < |s.bl| && s.bl[kp + 1] != p && s.bl[kp + 1] != NIL && NoneBefore(own, flag, s.bl, p, kp + 1, 0)
      ensures maxfree < 4 && p1 != p ==> k1 < |s.bl| && p1 == s.bl[k1] && NoneBefore(own, flag, s.bl, p, k1, 0)
      ensures maxfree <= 4 && Chosen(own, flag, s.bl, kp)
    {
      hide Sound, Total, Weight, InArena, Distinct, NoneBefore, Chosen, Best;
      Sizes();
      var q := ofdlist;
      p1, maxfree, p := NIL, 0, NIL;
      ghost var k: nat := 0;
      k1, kp := 0, 0;
      BestStart(own, flag, s.bl);
      while q != NIL
        invariant k <= |s.bl| && q == (if k < |s.bl| then s.bl[k] else NIL) && 0 <= maxfree < 3
        invariant Best(own, flag, s.bl, k, p1, k1, p, kp, maxfree)
        decreases |s.bl| - k
      {
        NextBlock(k);
        Sizes();
        BestNext(own, flag, s.bl, k, p1, k1, p, kp, maxfree);
        if flag[q] > 0 {
          var thisfree := CountFree(q);
          if thisfree > 0 && p1 == NIL {
            p1, k1 := q, k;
          }
          if thisfree > maxfree {
            p, kp := q, k;
            maxfree := thisfree;
            if thisfree == MDS_PER_BLOCK {
              BestChosen(own, flag, s.bl, k + 1, p1, k1, p, kp, maxfree);
              return;
            }
            if thisfree == MDS_PER_BLOCK - 1 {
              k := k + 1;
              break;
            }
          }
        }
        q := blink[q];
        k := k + 1;
      }
      Sizes();
      BestFound(own, flag, s.bl, k, p1, k1, p, kp, maxfree);
      BestChosen(own, flag, s.bl, k, p1, k1, p, kp, maxfree);
      WeightIs(own, flag, p);
      if kp + 1 < |s.bl| {
        NextBlock(kp + 1);
      }
    }

    lemma AllFree(p: int)
      requires Valid() && p in s.bl && 0 <= p < |flag| && flag[p] > 0 && |own| == 4 * |flag| && FreeOf(own, p) == 4
      ensures Emptied(s.kind, s.kind, own, p, 4) && Away(s.cf, s.cf, p) && Away(s.ca, s.ca, p)
    {
      assert own[4 * p] == own[4 * p + 1] == own[4 * p + 2] == own[4 * p + 3] == MF_FREE;
      EmptiedStart(p, 4);
      Unmoved();
      AllAway(s.cf, s.ca, s.kind, p);
    }

    // ofdmore: blocks given back by the memory manager, none of them in the list, become unused blocks of the list.
    method OfdMore(more: seq<int>) returns (p: int)
      requires Valid() && NewBlocks(s.bl, more, |blink|)
      modifies this`blink, this`flag, this`ofdlist, this`s
      ensures Valid() && s.cf == old(s.cf) && s.ca == old(s.ca) && s.kind == old(s.kind) && |blink| == old(|blink|)
      ensures SameListed(old(D()), old(s), D(), s)
      ensures p != NIL <==> more != []
      ensures p != NIL ==> p in s.bl && p in more && 0 <= p < |flag| && flag[p] == 0
      ensures p == NIL ==> unchanged(this)
      ensures own == old(own) && |flag| == |old(flag)| && (more != [] ==> p == more[|more| - 1])
      ensures s.bl == Stacked(more, old(s.bl))
      ensures forall j :: 0 <= j < |more| ==> 0 <= more[j] < |flag| && flag[more[j]] == 0
      ensures forall b :: b in old(s.bl) ==> b in s.bl
      ensures forall b :: 0 <= b < |flag| && b !in more ==> 0 <= b < |old(flag)| && flag[b] == old(flag)[b]
    {
      hide Sound, InArena, NewBlocks, Stacked;
      Sizes();
      Unmoved();
      hide SameListed;
      p := NIL;
      for i := 0 to |more|
        invariant Valid() && s.cf == old(s.cf) && s.ca == old(s.ca) && s.kind == old(s.kind)
        invariant |flag| == |old(flag)| == |blink| == |old(blink)| && NewBlocks(s.bl, more[i..], |blink|)
        invariant D() == old(D()) && (forall b :: b in old(s.bl) ==> b in s.bl)
        invariant i == 0 ==> p == NIL && unchanged(this)
        invariant i > 0 ==> p in s.bl && p == more[i - 1]
        invariant Stacked(more[i..], s.bl) == Stacked(more, old(s.bl))
        invariant forall j :: 0 <= j < i ==> 0 <= more[j] < |flag| && flag[more[j]] == 0
        invariant forall b :: 0 <= b < |flag| && b !in more ==> flag[b] == old(flag)[b]
      {
        assert more[i..][0] == more[i] && more[i..][1..] == more[i + 1..];
        StackedStep(more[i..], s.bl);
        AddBlock(more[i], more[i..]);
        p := ofdlist;
      }
      StackedStep([], s.bl);
      ListedAsBefore(D(), old(s), s);
    }

    // ofdadd for one block, the first of those that are still to come.
    method AddBlock(q: int, ghost rest: seq<int>)
      requires Valid() && NewBlocks(s.bl, rest, |blink|) && rest != [] && q == rest[0]
      modifies this`blink, this`flag, this`ofdlist, this`s
      ensures Valid() && s == old(s).(bl := [q] + old(s.bl)) && ofdlist == q && D() == old(D())
      ensures 0 <= q < |old(flag)| == |blink| == |old(blink)| && flag == old(flag)[q := 0]
      ensures NewBlocks(s.bl, rest[1..], |blink|)
    {
      hide Sound, InArena, NewBlocks;
      Sizes();
      BlockAdded(B(), ofdlist, D(), s, |blink|, rest);
      blink := blink[q := ofdlist];
      ofdlist := q;
      flag := flag[q := 0];
      s := s.(bl := [q] + s.bl);
    }

    /**
     mgetofd: a block for an open file. more is what the memory manager has given back since, spare the block of an open
     file that may be used again, or NIL. The lists of descriptors say what they said, and with four free descriptors
     there is always a block.
     */
    method MGetOfd(more: seq<int>, spare: int) returns (p: int)
      requires Valid() && NewBlocks(s.bl, more, |blink|)
      requires spare == NIL || (0 <= spare < |flag| && flag[spare] == -1)
      modifies this
      ensures Valid() && SameListed(old(D()), old(s), D(), s) && |blink| == old(|blink|)
      ensures p != NIL ==> 0 <= p < |flag| && flag[p] == -1 && Cleared(D(), p)
      ensures p != NIL ==> p == spare || (p in s.bl && old(flag)[p] != -1) || p in more
      ensures p != NIL && p in old(s.bl) && 0 <= p < |old(flag)| && old(flag)[p] > 0 && FreeOf(old(own), p) < 4 ==>
        exists k: nat :: Chosen(old(own), old(flag), old(s.bl), k) && p == old(s.bl)[k]
      ensures p == NIL ==> spare == NIL && more == [] && Total(old(own), old(flag), old(s.bl)) < 4
      ensures HasSpare(old(own), old(flag), old(s.bl)) ==>
        FirstSpare(old(own), old(flag), old(s.bl), p) && s.bl == old(s.bl)
      ensures !HasSpare(old(own), old(flag), old(s.bl)) && more != [] ==>
        p == more[|more| - 1] && s.bl == Stacked(more, old(s.bl))
      ensures !HasSpare(old(own), old(flag), old(s.bl)) && more == [] ==>
        && s.bl == old(s.bl)
        && if Total(old(own), old(flag), old(s.bl)) < 4 then p == spare
           else exists k: nat :: Chosen(old(own), old(flag), old(s.bl), k) && p == old(s.bl)[k]
      ensures |flag| == |old(flag)| && forall b :: 0 <= b < |flag| && b != p && b !in more ==> flag[b] == old(flag)[b]
      ensures forall m :: 0 <= m < |s.kind| && m / 4 != p ==>
        m < |old(s.kind)| && (s.kind[m] == LOOSE <==> old(s.kind)[m] == LOOSE)
    {
      hide Chosen, Sound, Total, SameListed, Emptied, Away, InArena, Distinct, FreeOf, HasSpare, FirstSpare, Stacked;
      Sizes();
      Unmoved();
      var total;
      p, total := FindUnused();
      if p == NIL {
        p := OfdMore(more);
        if p == NIL {
          if total >= MDS_PER_BLOCK {
            ghost var k;
            p, k := GetOsm();
            EmptiedLoose(old(s.kind), s.kind, own, p);
          } else {
            p := spare;
          }
        }
      }
      if p != NIL {
        Sizes();
        SlotsUnused(p);
        ghost var d, s1 := D(), s;
        Take(p);
        SameTwice(old(D()), old(s), d, s1, D(), s);
      }
    }

    // An unused block, or one of four free descriptors; else the number of free descriptors.
    method FindUnused() returns (p: int, total: int)
      requires Valid()
      ensures p != NIL ==> p in s.bl && 0 <= p < |flag| && (flag[p] == 0 || (flag[p] > 0 && FreeOf(own, p) == 4))
      ensures p == NIL <==> !HasSpare(own, flag, s.bl)
      ensures p == NIL ==> total == Total(own, flag, s.bl)
      ensures p != NIL ==> FirstSpare(own, flag, s.bl, p)
    {
      hide Sound, Total, FreeOf, InArena, Distinct;
      Sizes();
      total, p := 0, ofdlist;
      ghost var k: nat := 0;
      TotalStep(own, flag, []);
      assert s.bl[..0] == [];
      while p != NIL
        invariant k <= |s.bl| && p == (if k < |s.bl| then s.bl[k] else NIL)
        invariant total == Total(own, flag, s.bl[..k])
        invariant forall j :: 0 <= j < k ==> !Spare(own, flag, s.bl[j])
        decreases |s.bl| - k
      {
        NextBlock(k);
        Sizes();
        TotalStep(own, flag, s.bl[..k + 1]);
        assert s.bl[..k + 1][..k] == s.bl[..k];
        if flag[p] == 0 {
          return;
        }
        if flag[p] > 0 {
          var thisfree := CountFree(p);
          total := total + thisfree;
          if thisfree == MDS_PER_BLOCK {
            return;
          }
        }
        p := blink[p];
        k := k + 1;
      }
      assert s.bl[..k] == s.bl;
    }

    // No descriptor of an unused block is used for anything; nor in a block of four free ones.
    lemma SlotsUnused(p: int)
      requires Valid() && 0 <= p < |flag| && |own| == 4 * |flag|
      requires flag[p] <= 0 || (p in s.bl && (FreeOf(own, p) == 4 || exists k0 :: Emptied(k0, s.kind, own, p, 4)))
      ensures |s.kind| == |own|
      ensures forall m :: 4 * p <= m < 4 * p + 4 ==> s.kind[m] == FREE
    {
      Sizes();
      forall m | 4 * p <= m < 4 * p + 4
        ensures s.kind[m] == FREE
      {
        SlotAt(m);
        if flag[p] > 0 && FreeOf(own, p) == 4 {
          assert FreeAt(own, m) == 1;
        }
      }
    }

    // The block becomes that of an open file, with all its fields zero.
    method Take(p: int)
      requires Valid() && 0 <= p < |flag| && |s.kind| == |own| == 4 * |flag|
      requires forall m :: 4 * p <= m < 4 * p + 4 ==> s.kind[m] == FREE
      modifies this`flag, this`mlink, this`start, this`length, this`own
      ensures Valid() && flag == old(flag)[p := -1] && Cleared(D(), p) && SameListed(old(D()), old(s), D(), s)
      ensures forall m :: 0 <= m < |own| && m / 4 != p ==> m < |old(own)| && own[m] == old(own)[m]
    {
      hide Sound, SameListed, InArena, Distinct;
      Sizes();
      flag := flag[p := -1];
      var y := 4 * p;
      while y < 4 * p + 4
        invariant 4 * p <= y <= 4 * p + 4 && flag == old(flag)[p := -1] && s == old(s) && blink == old(blink)
        invariant ofdlist == old(ofdlist)
        invariant ClearedTo(old(D()), D(), 4 * p, y) && |own| == 4 * |flag|
      {
        mlink := mlink[y := NIL];
        start := start[y := 0];
        length := length[y := 0];
        own := own[y := 0];
        y := y + 1;
      }
      TakenSound(old(B()), ofdlist, old(D()), D(), s, |blink|, p);
    }

    /**
     mgetmd: a descriptor for the memory manager, on no list yet: the first free one of the first block that has any, or
     else the last one of a block that is made a descriptor block for it. That is the last unused block of the list, or
     else one given back by the memory manager, or else the spare one; NIL if there is none of them either.
     */
    method MGetMd(more: seq<int>, spare: int) returns (x: int)
      requires Valid() && NewBlocks(s.bl, more, |blink|)
      requires spare == NIL || (spare in s.bl && 0 <= spare < |flag| && flag[spare] == -1)
      modifies this
      ensures Valid() && SameListed(old(D()), old(s), D(), s) && |blink| == old(|blink|)
      ensures x != NIL ==>
        0 <= x < |s.kind| == |old(s.kind)| && s.kind == old(s.kind)[x := LOOSE] && old(s.kind)[x] == FREE
      ensures x != NIL ==>
        |mlink| == |start| == |length| == |own| == |s.kind| && mlink[x] == NIL && start[x] == length[x] == own[x] == 0
      ensures x == NIL ==> unchanged(this)
      ensures x == NIL <==>
        Total(old(own), old(flag), old(s.bl)) == 0 && !HasUnused(old(flag), old(s.bl)) && more == [] && spare == NIL
      ensures Total(old(own), old(flag), old(s.bl)) > 0 ==>
        FirstFree(old(own), old(flag), old(s.bl), x) && flag == old(flag) && s.bl == old(s.bl) && own ==
          old(own)[x := 0]
      ensures Total(old(own), old(flag), old(s.bl)) == 0 && x != NIL ==>
        && x % 4 == 3 && |old(flag)| == |flag| && |old(own)| == 4 * |flag| && Opened(old(own), own, x / 4)
        && flag[x / 4] == 1 && (forall b :: 0 <= b < |flag| && b != x / 4 && b !in more ==> flag[b] == old(flag)[b])
        && if HasUnused(old(flag), old(s.bl)) then LastUnused(old(flag), old(s.bl), x / 4) && s.bl == old(s.bl)
           else if more != [] then x / 4 == more[|more| - 1] && s.bl == Stacked(more, old(s.bl))
           else x / 4 == spare && s.bl == old(s.bl)
    {
      hide Sound, SameListed, InArena, Distinct, NewBlocks, Total, HasUnused, LastUnused, FirstFree, Opened, Stacked;
      Sizes();
      Unmoved();
      var p;
      x, p := FindFree();
      if x == NIL {
        if p == NIL {
          p := OfdMore(more);
          if p == NIL {
            p := spare;
          }
        }
        if p == NIL {
          return;
        }
        Sizes();
        ghost var d1, s1 := D(), s;
        Open(p);
        SameTwice(old(D()), old(s), d1, s1, D(), s);
        x := 4 * p + 3;
        OpenedLast(old(own), own, p);
      }
      Sizes();
      ghost var d2, s2 := D(), s;
      HandOut(x);
      SameTwice(old(D()), old(s), d2, s2, D(), s);
    }

    // An unused block becomes one for descriptors, all of them free.
    method Open(p: int)
      requires Valid() && p in s.bl && 0 <= p < |flag| && flag[p] <= 0
      modifies this`flag, this`own
      ensures Valid() && SameListed(old(D()), s, D(), s) && flag == old(flag)[p := 1]
      ensures |own| == |old(own)| == |s.kind| == 4 * |flag| && s.kind[4 * p + 3] == FREE && InUse(B(), s.bl, 4 * p + 3)
      ensures own == old(own)[4 * p := MF_FREE][4 * p + 1 := MF_FREE][4 * p + 2 := MF_FREE][4 * p + 3 := MF_FREE]
    {
      hide Sound, SameListed;
      Sizes();
      BlockOpened(B(), ofdlist, D(), s, |blink|, p);
      var x := 4 * p + 3;
      flag := flag[p := 1];
      own := own[4 * p := MF_FREE][4 * p + 1 := MF_FREE][4 * p + 2 := MF_FREE];
      own := own[x := MF_FREE];
    }

    // The first free descriptor, or else the last unused block of the list.
    method FindFree() returns (x: int, q: int)
      requires Valid()
      ensures x == NIL <==> Total(own, flag, s.bl) == 0
      ensures x != NIL ==> 0 <= x < |own| == |s.kind| && s.kind[x] == FREE && InUse(B(), s.bl, x)
      ensures x != NIL ==> FirstFree(own, flag, s.bl, x)
      ensures x == NIL && q == NIL ==> !HasUnused(flag, s.bl)
      ensures x == NIL && q != NIL ==>
        q in s.bl && 0 <= q < |flag| && flag[q] == 0 && HasUnused(flag, s.bl) && LastUnused(flag, s.bl, q)
    {
      hide Sound, Total, Weight, Sought, HasUnused, LastUnused, FirstFree, InArena, Distinct, Taken;
      Sizes();
      SoughtNone(own, flag, s.bl);
      x, q := NIL, NIL;
      var p := ofdlist;
      ghost var k: nat := 0;
      while p != NIL
        invariant k <= |s.bl| && p == (if k < |s.bl| then s.bl[k] else NIL) && x == NIL
        invariant Sought(own, flag, s.bl, k, q)
        decreases |s.bl| - k
      {
        NextBlock(k);
        Sizes();
        if flag[p] > 0 {
          var i := SkipUsed(p);
          if i < 4 {
            x := 4 * p + i;
            FreeKind(p, x);
            SoughtFree(own, flag, s.bl, k, q, i);
            return;
          }
        }
        SoughtNext(own, flag, s.bl, k, q);
        if flag[p] == 0 {
          q := p;
        }
        p := blink[p];
        k := k + 1;
      }
      SoughtAll(own, flag, s.bl, k, q);
    }

    // The first free slot of block p.
    method SkipUsed(p: int) returns (i: int)
      requires 0 <= p && 4 * p + 4 <= |own|
      ensures 0 <= i <= 4 && (i < 4 ==> own[4 * p + i] == MF_FREE) && Taken(own, p, i)
    {
      i := 0;
      while i < 4 && own[4 * p + i] != MF_FREE
        invariant 0 <= i <= 4 && Taken(own, p, i)
      {
        i := i + 1;
      }
    }

    // The free descriptor x is handed out with all fields zero.
    method HandOut(x: int)
      requires Valid() && 0 <= x < |s.kind| && s.kind[x] == FREE && InUse(B(), s.bl, x)
      requires |mlink| == |start| == |length| == |own| == |s.kind|
      modifies this`mlink, this`start, this`length, this`own, this`s
      ensures Valid() && SameListed(old(D()), old(s), D(), s) && s == old(s).(kind := old(s.kind)[x := LOOSE])
      ensures mlink == old(mlink)[x := NIL] && start == old(start)[x := 0] && length == old(length)[x := 0]
      ensures own == old(own)[x := 0]
    {
      hide Sound, SameListed;
      HandedOut(B(), ofdlist, D(), s, |blink|, x);
      own := own[x := 0];
      length := length[x := 0];
      start := start[x := 0];
      mlink := mlink[x := NIL];
      s := s.(kind := s.kind[x := LOOSE]);
    }

    /** oftdel: the block of a file that was closed becomes unused; the source stops if it already is. */
    method OftDel(p: int)
      requires Valid() && 0 <= p < |flag| && flag[p] == -1
      modifies this`flag
      ensures Valid() && flag == old(flag)[p := 0]
    {
      hide Sound;
      BlockClosed(B(), ofdlist, D(), s, |blink|, p);
      flag := flag[p := 0];
    }

    /**
     xmdfree: gives back a descriptor; false where the source stops with a message. It does not look whether the
     descriptor is on a list: the pool stays sound exactly if it is on none.
     */
    method XmdFree(m: int) returns (ok: bool)
      requires Valid() && 0 <= m < |s.kind|
      modifies this`own, this`s
      ensures ok == (old(s.kind)[m] != FREE) && |old(own)| == |s.kind|
      ensures own == if ok then old(own)[m := MF_FREE] else old(own)
      ensures s == if old(s.kind)[m] == LOOSE then old(s).(kind := old(s.kind)[m := FREE]) else old(s)
      ensures old(s.kind)[m] in {FREE, LOOSE} ==> Valid() && SameListed(old(D()), old(s), D(), s)
      ensures old(s.kind)[m] !in {FREE, LOOSE} ==> forall s' :: !Sound(B(), ofdlist, D(), s', |blink|)
    {
      hide Sound, SameListed, Moving;
      Sizes();
      Unmoved();
      SlotAt(m);
      var p := BlockOf(m);
      if p == NIL || flag[p] <= 0 || own[m] == MF_FREE {
        return false;
      }
      ghost var d0, s0 := D(), s;
      if s.kind[m] == LOOSE {
        LooseSound(B(), ofdlist, d0, s0, |blink|, m);
        s := s0.(kind := s0.kind[m := FREE]);
      } else {
        ListedFreed(B(), ofdlist, d0, d0.(own := own[m := MF_FREE]), s0, |blink|, m);
      }
      own := own[m := MF_FREE];
      assert s0.kind[m] == LOOSE ==> Gone(d0, s0, D(), s, m, m);
      ok := true;
    }

    // The block of the list in which a descriptor lies.
    method BlockOf(m: int) returns (p: int)
      requires Valid()
      ensures p == if m / 4 in s.bl then m / 4 else NIL
    {
      hide Sound;
      Sizes();
      p := ofdlist;
      ghost var k: nat := 0;
      while p != NIL
        invariant k <= |s.bl| && p == (if k < |s.bl| then s.bl[k] else NIL)
        invariant m / 4 !in s.bl[..k]
        decreases |s.bl| - k
      {
        if 4 * p <= m < 4 * p + 4 {
          return;
        }
        assert s.bl[..k + 1] == s.bl[..k] + [s.bl[k]];
        NextBlock(k);
        p := blink[p];
        k := k + 1;
      }
      assert s.bl[..k] == s.bl;
    }

  }

  lemma EmptiedLoose(kind0: seq<int>, kind: seq<int>, own: seq<int>, p: int)
    requires Emptied(kind0, kind, own, p, 4)
    ensures |kind| == |kind0|
    ensures forall m :: 0 <= m < |kind| && m / 4 != p ==> (kind[m] == LOOSE <==> kind0[m] == LOOSE)
  {
  }

  /** Making a block keeps every descriptor that is on no list exactly when none of them lies in that block. */
  lemma LooseKeptIff(kind0: seq<int>, kind: seq<int>, own: seq<int>, p: int)
    requires Emptied(kind0, kind, own, p, 4)
    ensures |kind| == |kind0|
    ensures
      (forall m :: 0 <= m < |kind| && kind0[m] == LOOSE ==> kind[m] == LOOSE)
      <==> (forall m :: 0 <= m < |kind| && kind0[m] == LOOSE ==> m / 4 != p)
  {
    forall m | 0 <= m < |kind| && m / 4 == p
      ensures kind[m] == FREE
    {
      assert 4 * p <= m < 4 * p + 4;
    }
  }

  lemma ListedAsBefore(d: Descs, s: Shape, s': Shape)
    requires SameListed(d, s, d, s) && s'.cf == s.cf && s'.ca == s.ca
    ensures SameListed(d, s, d, s')
  {
  }

  // Blocks that are not in the list yet.
  ghost predicate NewBlocks(bl: seq<int>, more: seq<int>, n: nat) {
    InArena(more, n) && Distinct(more) && Apart(bl, more)
  }

  // All fields of a block are zero.
  ghost predicate Cleared(d: Descs, p: int) {
    && 0 <= p && 4 * p + 4 <= |d.own| == |d.mlink| == |d.start| == |d.length|
    && forall m :: 4 * p <= m < 4 * p + 4 ==> d.own[m] == d.start[m] == d.length[m] == 0 && d.mlink[m] == NIL
  }

  // Slots lo to hi are cleared, the others are as they were.
  ghost predicate ClearedTo(d: Descs, d': Descs, lo: int, hi: int) {
    && |d'.mlink| == |d'.start| == |d'.length| == |d'.own| == |d.own| == |d.mlink| == |d.start| == |d.length|
    && d'.mfl == d.mfl && d'.mal == d.mal
    && (forall m :: 0 <= m < |d.own| && !(lo <= m < hi) ==>
          d'.own[m] == d.own[m] && d'.mlink[m] == d.mlink[m] && d'.start[m] == d.start[m]
          && d'.length[m] == d.length[m])
    && (forall m :: 0 <= m < |d.own| && lo <= m < hi ==>
          d'.own[m] == d'.start[m] == d'.length[m] == 0 && d'.mlink[m] == NIL)
  }

  lemma TotalStep(own: seq<int>, flag: seq<int>, bl: seq<int>)
    ensures bl == [] ==> Total(own, flag, bl) == 0
    ensures bl != [] && 0 <= bl[|bl| - 1] < |flag| ==>
      Total(own, flag, bl) == Total(own, flag, bl[..|bl| - 1])
                              + if flag[bl[|bl| - 1]] > 0 then FreeOf(own, bl[|bl| - 1]) else 0
  {
  }

  lemma TakenSound(b: Blocks, ofdlist: int, d: Descs, d': Descs, s: Shape, n: nat, p: int)
    requires Sound(b, ofdlist, d, s, n) && 0 <= p < n && |s.kind| == 4 * n
    requires forall m :: 4 * p <= m < 4 * p + 4 ==> s.kind[m] == FREE
    requires ClearedTo(d, d', 4 * p, 4 * p + 4)
    ensures |b.flag| == n
    ensures Sound(b.(flag := b.flag[p := -1]), ofdlist, d', s, n) && SameListed(d, s, d', s)
  {
    var b' := b.(flag := b.flag[p := -1]);
    SameOffLists(d, d', s, 4 * p, 4 * p + 4);
    forall m | 0 <= m < |s.kind|
      ensures s.kind[m] != FREE ==> InUse(b', s.bl, m) && d'.own[m] != MF_FREE
      ensures s.kind[m] == FREE && InUse(b', s.bl, m) ==> d'.own[m] == MF_FREE
    {
      assert s.kind[m] != FREE ==> InUse(b, s.bl, m);
      assert InUse(b', s.bl, m) <==> InUse(b, s.bl, m) && m / 4 != p;
    }
    hide Lists, Chain;
  }

  /** Writing slots that are on no list. */
  lemma SameOffLists(d: Descs, d': Descs, s: Shape, lo: int, hi: int)
    requires Lists(d, s) && |s.kind| == |d.own| && ClearedTo(d, d', lo, hi)
    requires forall m :: lo <= m < hi ==> 0 <= m < |s.kind| && s.kind[m] != ON_MFL && s.kind[m] != ON_MAL
    ensures Lists(d', s) && SameListed(d, s, d', s)
  {
    HoldsFacts(d.mlink, d.mfl, s.cf, s.kind, ON_MFL);
    HoldsFacts(d.mlink, d.mal, s.ca, s.kind, ON_MAL);
    HoldsKept(d.mlink, d'.mlink, d.mfl, s.cf, s.kind, s.kind, ON_MFL);
    HoldsKept(d.mlink, d'.mlink, d.mal, s.ca, s.kind, s.kind, ON_MAL);
    hide Holds;
  }

  lemma BlockAdded(b: Blocks, ofdlist: int, d: Descs, s: Shape, n: nat, more: seq<int>)
    requires Sound(b, ofdlist, d, s, n) && NewBlocks(s.bl, more, n) && more != []
    ensures |b.blink| == |b.flag| == n && 0 <= more[0] < n
    ensures NewBlocks([more[0]] + s.bl, more[1..], n)
    ensures Sound(Blocks(b.blink[more[0] := ofdlist], b.flag[more[0] := 0]), more[0], d, s.(bl := [more[0]] + s.bl), n)
  {
    var q := more[0];
    var b', s' := Blocks(b.blink[q := ofdlist], b.flag[q := 0]), s.(bl := [q] + s.bl);
    NewBlocksRest(s.bl, more, n);
    BlockLinked(b.blink, ofdlist, s.bl, q);
    KindsAdded(b, b', d.own, s, q);
    hide Lists, InUse, Chain, NewBlocks, Kinds;
  }

  lemma NewBlocksRest(bl: seq<int>, more: seq<int>, n: nat)
    requires NewBlocks(bl, more, n) && more != []
    ensures 0 <= more[0] < n && more[0] !in bl && NewBlocks([more[0]] + bl, more[1..], n)
  {
    forall i, j | 0 <= i < |[more[0]] + bl| && 0 <= j < |more[1..]|
      ensures ([more[0]] + bl)[i] != more[1..][j]
    {
      assert more[1..][j] == more[j + 1];
    }
  }

  lemma BlockLinked(blink: seq<int>, head: int, bl: seq<int>, q: int)
    requires Chain(blink, head, bl) && 0 <= q < |blink| && q !in bl
    ensures Chain(blink[q := head], q, [q] + bl)
  {
    assert Apart(bl, [q]);
    LinkedElsewhere(blink, blink[q := head], bl, NIL);
    PrependLink(blink[q := head], bl, q);
  }

  lemma KindsAdded(b: Blocks, b': Blocks, own: seq<int>, s: Shape, q: int)
    requires Kinds(b, own, s) && 0 <= q < |b.flag| && q !in s.bl && b'.flag == b.flag[q := 0]
    ensures Kinds(b', own, s.(bl := [q] + s.bl))
  {
    forall m | 0 <= m < |s.kind|
      ensures InUse(b', [q] + s.bl, m) <==> InUse(b, s.bl, m)
    {
    }
    hide InUse;
  }

  // Nobody's slots get another owner.
  lemma OpenedListed(d: Descs, s: Shape, own': seq<int>, p: int)
    requires Lists(d, s) && |d.start| == |d.length| == |d.own| == |own'| == |s.kind|
    requires forall m :: 0 <= m < |own'| && m / 4 != p ==> own'[m] == d.own[m]
    requires forall m :: 0 <= m < |own'| && m / 4 == p ==> s.kind[m] == FREE
    ensures Lists(d.(own := own'), s) && SameListed(d, s, d.(own := own'), s)
  {
    HoldsFacts(d.mlink, d.mfl, s.cf, s.kind, ON_MFL);
    HoldsFacts(d.mlink, d.mal, s.ca, s.kind, ON_MAL);
    hide Holds;
  }

  lemma BlockOpened(b: Blocks, ofdlist: int, d: Descs, s: Shape, n: nat, p: int)
    requires Sound(b, ofdlist, d, s, n) && 0 <= p < n && p in s.bl && |b.flag| == n && b.flag[p] <= 0
    ensures |d.own| == |s.kind| == 4 * n
    ensures
      var own' := d.own[4 * p := MF_FREE][4 * p + 1 := MF_FREE][4 * p + 2 := MF_FREE][4 * p + 3 := MF_FREE];
      var b', d' := b.(flag := b.flag[p := 1]), d.(own := own');
      && Sound(b', ofdlist, d', s, n) && SameListed(d, s, d', s)
      && InUse(b', s.bl, 4 * p + 3) && s.kind[4 * p + 3] == FREE
  {
    var own' := d.own[4 * p := MF_FREE][4 * p + 1 := MF_FREE][4 * p + 2 := MF_FREE][4 * p + 3 := MF_FREE];
    var b', d' := b.(flag := b.flag[p := 1]), d.(own := own');
    forall m | 0 <= m < |s.kind|
      ensures s.kind[m] != FREE ==> InUse(b', s.bl, m) && own'[m] != MF_FREE
      ensures s.kind[m] == FREE && InUse(b', s.bl, m) ==> own'[m] == MF_FREE
    {
      assert s.kind[m] != FREE ==> InUse(b, s.bl, m);
      assert m / 4 != p ==> (InUse(b', s.bl, m) <==> InUse(b, s.bl, m));
    }
    assert forall m :: 4 * p <= m < 4 * p + 4 ==> !InUse(b, s.bl, m);
    OpenedListed(d, s, own', p);
    hide Lists, Listed, InUse, Chain, InArena;
  }

  lemma BlockClosed(b: Blocks, ofdlist: int, d: Descs, s: Shape, n: nat, p: int)
    requires Sound(b, ofdlist, d, s, n) && 0 <= p < |b.flag| && b.flag[p] <= 0
    ensures Sound(b.(flag := b.flag[p := 0]), ofdlist, d, s, n)
  {
    var b' := b.(flag := b.flag[p := 0]);
    forall m | 0 <= m < |s.kind|
      ensures InUse(b', s.bl, m) <==> InUse(b, s.bl, m)
    {
    }
    hide Lists, InUse, Chain;
  }

  lemma HandedOut(b: Blocks, ofdlist: int, d: Descs, s: Shape, n: nat, x: int)
    requires Sound(b, ofdlist, d, s, n) && 0 <= x < |s.kind| && s.kind[x] == FREE && InUse(b, s.bl, x)
    requires |d.mlink| == |d.start| == |d.length| == |d.own| == |s.kind|
    ensures
      var d' := d.(own := d.own[x := 0], length := d.length[x := 0], start := d.start[x := 0],
        mlink := d.mlink[x := NIL]);
      var s' := s.(kind := s.kind[x := LOOSE]);
      Sound(b, ofdlist, d', s', n) && SameListed(d, s, d', s')
  {
    var d' := d.(own := d.own[x := 0], length := d.length[x := 0], start := d.start[x := 0],
      mlink := d.mlink[x := NIL]);
    hide Chain, Holds, Kinds, InUse, InArena, Lists, Listed, SameListed;
    ClearOne(d, x);
    assert Lists(d', s) && SameListed(d, s, d', s) by {
      SameOffLists(d, d', s, x, x + 1);
    }
    LooseLists(d', s, x);
    KindsOut(b, d.own, s, x);
  }

  lemma ClearOne(d: Descs, x: int)
    requires |d.mlink| == |d.start| == |d.length| == |d.own| && 0 <= x < |d.own|
    ensures
      var d' := d.(own := d.own[x := 0], length := d.length[x := 0], start := d.start[x := 0],
        mlink := d.mlink[x := NIL]);
      ClearedTo(d, d', x, x + 1)
  {
  }

  lemma LooseLists(d: Descs, s: Shape, x: int)
    requires Lists(d, s) && 0 <= x < |s.kind| && s.kind[x] == FREE
    ensures Lists(d, s.(kind := s.kind[x := LOOSE]))
  {
    var kind' := s.kind[x := LOOSE];
    HoldsKept(d.mlink, d.mlink, d.mfl, s.cf, s.kind, kind', ON_MFL);
    HoldsKept(d.mlink, d.mlink, d.mal, s.ca, s.kind, kind', ON_MAL);
    hide Holds;
  }

  lemma KindsOut(b: Blocks, own: seq<int>, s: Shape, x: int)
    requires Kinds(b, own, s) && 0 <= x < |s.kind| && s.kind[x] == FREE && InUse(b, s.bl, x)
    ensures Kinds(b, own[x := 0], s.(kind := s.kind[x := LOOSE]))
  {
    hide InUse;
  }

  // After k blocks: p1 is the first one with a free descriptor, p has the most, maxfree.
  ghost predicate Best(own: seq<int>, flag: seq<int>, bl: seq<int>, k: nat, p1: int, k1: nat, p: int, kp: nat,
                       maxfree: int) {
    && k <= |bl| && (p == NIL <==> p1 == NIL)
    && (p == NIL ==> maxfree == 0 && forall j :: 0 <= j < k ==> Weight(own, flag, bl[j]) == 0)
    && (p != NIL ==>
          && k1 <= kp < k && p1 == bl[k1] && p == bl[kp] && 0 <= p < |flag| && flag[p] > 0
          && Weight(own, flag, p) == maxfree && maxfree > 0
          && (forall j :: 0 <= j < k1 ==> Weight(own, flag, bl[j]) == 0)
          && (forall j :: 0 <= j < kp ==> Weight(own, flag, bl[j]) < maxfree && Weight(own, flag, bl[j]) < 3)
          && (forall j :: 0 <= j < k ==> Weight(own, flag, bl[j]) <= maxfree))
  }

  // The block that getosm empties: the first with three or four free descriptors, or else the first with the most.
  ghost predicate Chosen(own: seq<int>, flag: seq<int>, bl: seq<int>, k: nat) {
    && k < |bl| && Weight(own, flag, bl[k]) > 0
    && (forall j :: 0 <= j < k ==> Weight(own, flag, bl[j]) < Weight(own, flag, bl[k]) && Weight(own, flag, bl[j]) < 3)
    && (Weight(own, flag, bl[k]) >= 3
        || forall j :: k < j < |bl| ==> Weight(own, flag, bl[j]) <= Weight(own, flag, bl[k]))
  }

  lemma BestChosen(own: seq<int>, flag: seq<int>, bl: seq<int>, k: nat, p1: int, k1: nat, p: int, kp: nat, maxfree: int)
    requires Best(own, flag, bl, k, p1, k1, p, kp, maxfree) && p != NIL && (maxfree >= 3 || k == |bl|)
    ensures Chosen(own, flag, bl, kp)
  {
    hide Weight;
  }

  /** No other block can be meant. */
  lemma ChosenOnce(own: seq<int>, flag: seq<int>, bl: seq<int>, k: nat, k': nat)
    requires Chosen(own, flag, bl, k) && Chosen(own, flag, bl, k')
    ensures k == k'
  {
    hide Weight;
  }

  /** A pool from which getosm loses the descriptor in slot 0. */
  lemma LooseLost()
    ensures exists b, d, s ::
      && Sound(b, 0, d, s, 2) && Total(d.own, b.flag, s.bl) >= 4
      && Chosen(d.own, b.flag, s.bl, 0) && s.bl[0] == 0 && s.kind[0] == LOOSE
  {
    var b := Blocks([1, NIL], [1, 1]);
    var zero := [0, 0, 0, 0, 0, 0, 0, 0];
    var d := Descs(zero, zero, zero, [0, 1, 1, 1, 0, 1, 1, 1], NIL, NIL);
    var s := Shape([0, 1], [LOOSE, FREE, FREE, FREE, LOOSE, FREE, FREE, FREE], [], []);
    hide Sound, Chosen, Total;
    assert s.bl[0] == 0 && s.kind[0] == LOOSE;
    SixFree(d.own, b.flag);
    assert Sound(b, 0, d, s, 2) by {
      NoLists(b, d, s);
    }
    assert Chosen(d.own, b.flag, s.bl, 0);
  }

  lemma SixFree(own: seq<int>, flag: seq<int>)
    requires own == [0, 1, 1, 1, 0, 1, 1, 1] && flag == [1, 1]
    ensures Chosen(own, flag, [0, 1], 0) && Total(own, flag, [0, 1]) == 6
  {
    assert Weight(own, flag, 0) == 3 && Weight(own, flag, 1) == 3;
    hide Weight;
    assert [0, 1][..1] == [0] && [0][..0] == [];
    assert Total(own, flag, [0]) == 3;
  }

  lemma NoLists(b: Blocks, d: Descs, s: Shape)
    requires b == Blocks([1, NIL], [1, 1]) && |d.mlink| == |d.start| == |d.length| == |d.own| == |s.kind| == 8
    requires d.own == [0, 1, 1, 1, 0, 1, 1, 1] && d.mfl == d.mal == NIL
    requires s == Shape([0, 1], [LOOSE, FREE, FREE, FREE, LOOSE, FREE, FREE, FREE], [], [])
    ensures Sound(b, 0, d, s, 2)
  {
    assert s.bl[0] == 0 && s.bl[1] == 1;
    forall m | 0 <= m < 8
      ensures InUse(b, s.bl, m)
    {
      assert m / 4 == 0 || m / 4 == 1;
    }
    hide InUse;
  }

  lemma WeightIs(own: seq<int>, flag: seq<int>, p: int)
    ensures 0 <= p < |flag| && flag[p] > 0 ==> Weight(own, flag, p) == FreeOf(own, p)
  {
  }

  lemma BestStart(own: seq<int>, flag: seq<int>, bl: seq<int>)
    ensures Best(own, flag, bl, 0, NIL, 0, NIL, 0, 0)
  {
  }

  lemma BestNext(own: seq<int>, flag: seq<int>, bl: seq<int>, k: nat, p1: int, k1: nat, p: int, kp: nat, maxfree: int)
    requires Best(own, flag, bl, k, p1, k1, p, kp, maxfree) && k < |bl| && 0 <= bl[k] < |flag| && maxfree < 3
    ensures 0 <= Weight(own, flag, bl[k]) <= 4
    ensures flag[bl[k]] > 0 ==> Weight(own, flag, bl[k]) == FreeOf(own, bl[k])
    ensures flag[bl[k]] <= 0 || FreeOf(own, bl[k]) <= maxfree ==>
      Best(own, flag, bl, k + 1, p1, k1, p, kp, maxfree)
    ensures flag[bl[k]] > 0 && FreeOf(own, bl[k]) > maxfree ==>
      var first := p1 == NIL;
      Best(own, flag, bl, k + 1, if first then bl[k] else p1, if first then k else k1, bl[k], k, FreeOf(own, bl[k]))
  {
  }

  /** With four free descriptors a best block is found, and if it is the first with any, others follow. */
  lemma BestFound(own: seq<int>, flag: seq<int>, bl: seq<int>, k: nat, p1: int, k1: nat, p: int, kp: nat, maxfree: int)
    requires Best(own, flag, bl, k, p1, k1, p, kp, maxfree) && Distinct(bl) && Total(own, flag, bl) >= 4 && maxfree < 4
    requires p == NIL ==> k == |bl|
    ensures p != NIL && kp < |bl| && p == bl[kp] && 0 <= p < |flag| && flag[p] > 0 && Weight(own, flag, p) == maxfree
    ensures p1 == p ==> kp + 1 < |bl| && bl[kp + 1] != p && NoneBefore(own, flag, bl, p, kp + 1, 0)
    ensures p1 != p ==> k1 < |bl| && p1 == bl[k1] && NoneBefore(own, flag, bl, p, k1, 0)
  {
    FreeElsewhere(own, flag, bl, p);
    var j :| 0 <= j < |bl| && bl[j] != p && Weight(own, flag, bl[j]) > 0;
    hide Total, Weight;
    if p1 == p {
      assert k1 == kp;
      assert j > kp;
    }
  }

  // The free ones among the first n slots of block b.
  function FreeFirst(own: seq<int>, b: int, n: int): int {
    (if n > 0 then FreeAt(own, 4 * b) else 0) + (if n > 1 then FreeAt(own, 4 * b + 1) else 0)
    + (if n > 2 then FreeAt(own, 4 * b + 2) else 0) + (if n > 3 then FreeAt(own, 4 * b + 3) else 0)
  }

  lemma NotAllFree(own: seq<int>, flag: seq<int>, p: int, idx: int)
    requires 0 <= p < |flag| && flag[p] > 0 && |own| == 4 * |flag| && 0 <= idx <= 4
    requires forall i :: 4 * p <= i < 4 * p + idx ==> own[i] == MF_FREE
    ensures idx == 4 ==> Weight(own, flag, p) == 4
  {
    if idx == 4 {
      assert own[4 * p] == own[4 * p + 1] == own[4 * p + 2] == own[4 * p + 3] == MF_FREE;
    }
  }

  lemma SameTwice(d0: Descs, s0: Shape, d: Descs, s: Shape, d': Descs, s': Shape)
    requires SameListed(d0, s0, d, s) && SameListed(d, s, d', s')
    ensures SameListed(d0, s0, d', s')
  {
    hide Listed, InArena;
  }

  /** Neither the number of free descriptors falls, nor does one come up before the place reached. */
  lemma AfterMove(own: seq<int>, own': seq<int>, flag: seq<int>, bl: seq<int>, p: int, x: int, e: int, k: nat, a: int)
    requires Distinct(bl) && InArena(bl, |flag|) && |own| == 4 * |flag| && p in bl && flag[p] > 0
    requires 0 <= x < |own| && x / 4 == p && own[x] != MF_FREE
    requires 0 <= e < |own| && e / 4 != p && e / 4 in bl && flag[e / 4] > 0 && own[e] == MF_FREE
    requires own' == own[x := MF_FREE] || own' == own[e := own[x]][x := MF_FREE]
    requires Total(own, flag, bl) >= 4 && NoneBefore(own, flag, bl, p, k, a) && (k < |bl| ==> bl[k] != p)
    ensures Total(own', flag, bl) >= 4 && NoneBefore(own', flag, bl, p, k, a)
  {
    var i: nat :| i < |bl| && bl[i] == p;
    var j: nat :| j < |bl| && bl[j] == e / 4;
    TotalSet(own, x, MF_FREE, flag, bl, i);
    TotalSet(own, e, own[x], flag, bl, j);
    TotalSet(own[e := own[x]], x, MF_FREE, flag, bl, i);
    assert own[e := own[x]][x] == own[x];
    hide Total, InArena, Distinct;
    NoneBeforeKept(own, own', flag, bl, p, k, a);
  }

  lemma NoneBeforeKept(own: seq<int>, own': seq<int>, flag: seq<int>, bl: seq<int>, p: int, k: nat, a: int)
    requires NoneBefore(own, flag, bl, p, k, a) && (k < |bl| ==> bl[k] != p)
    requires forall m :: 0 <= m < |own| && m / 4 != p ==> FreeAt(own', m) <= FreeAt(own, m)
    requires |own'| == |own|
    ensures NoneBefore(own', flag, bl, p, k, a)
  {
    forall b | b != p
      ensures Weight(own', flag, b) <= Weight(own, flag, b)
      ensures Taken(own, b, a) ==> Taken(own', b, a)
    {
      NotMore(own, own', p, 4 * b);
      NotMore(own, own', p, 4 * b + 1);
      NotMore(own, own', p, 4 * b + 2);
      NotMore(own, own', p, 4 * b + 3);
      hide FreeAt;
    }
    forall j | 0 <= j < k && bl[j] != p
      ensures Weight(own', flag, bl[j]) == 0
    {
      WeightRange(own', flag, bl[j]);
    }
  }

  lemma NotMore(own: seq<int>, own': seq<int>, p: int, m: int)
    requires |own'| == |own| && m / 4 != p
    requires forall i :: 0 <= i < |own| && i / 4 != p ==> FreeAt(own', i) <= FreeAt(own, i)
    ensures 0 <= FreeAt(own', m) <= FreeAt(own, m)
  {
    if 0 <= m < |own| {
      assert FreeAt(own', m) <= FreeAt(own, m);
    }
  }

  lemma MovingTwice(c0: seq<int>, c: seq<int>, c': seq<int>, p: int)
    requires Moving(c0, c, p) && Moving(c, c', p)
    ensures Moving(c0, c', p)
  {
  }

  lemma EmptiedStep(kind0: seq<int>, kind: seq<int>, own: seq<int>, kind': seq<int>, own': seq<int>, p: int, idx: int,
                    e: int)
    requires Emptied(kind0, kind, own, p, idx) && 0 <= idx < 4 && 0 <= e < |own| && e / 4 != p && kind[e] == FREE
    requires |kind'| == |kind| && |own'| == |own|
    requires
      var x := 4 * p + idx;
      || (kind[x] == LOOSE && kind' == kind[x := FREE] && own' == own[x := MF_FREE])
      || (kind[x] != LOOSE && kind' == kind[e := kind[x]][x := FREE] && own' == own[e := own[x]][x := MF_FREE])
    ensures Emptied(kind0, kind', own', p, idx + 1)
  {
  }

  lemma MovedIs(d: Descs, c: seq<int>, k: nat, e: int, onMfl: bool)
    requires k < |c| && InArena(c, |d.mlink|) && 0 <= e < |d.mlink|
    requires |d.start| == |d.length| == |d.own| == |d.mlink|
    ensures Moved(d, c, k, e, onMfl) == Descs(
      LinkMoved(d.mlink, c, k, e), d.start[e := d.start[c[k]]], d.length[e := d.length[c[k]]], d.own[e := d.own[c[k]]],
      if onMfl && k == 0 then e else d.mfl, if !onMfl && k == 0 then e else d.mal)
    ensures LinkMoved(d.mlink, c, k, e) ==
      if k == 0 then d.mlink[e := d.mlink[c[k]]] else d.mlink[e := d.mlink[c[k]]][c[k - 1] := e]
  {
  }

  // The descriptors after descriptor k of a list moved to e and its old slot became free.
  function Relocated(d: Descs, c: seq<int>, k: nat, e: int, onMfl: bool): Descs
    requires k < |c| && InArena(c, |d.mlink|) && 0 <= e < |d.mlink|
    requires |d.start| == |d.length| == |d.own| == |d.mlink|
  {
    var d1 := Moved(d, c, k, e, onMfl);
    d1.(own := d1.own[c[k] := MF_FREE])
  }

  // Descriptor m, position k of its list, has been copied to e and the list leads there.
  ghost predicate Carried(d: Descs, s: Shape, m: int, k: nat, e: int, d1: Descs) {
    && 0 <= m < |s.kind| && 0 <= e < |s.kind|
    && |d.start| == |d.length| == |d.own| == |d.mlink| == |s.kind|
    && var onMfl := s.kind[m] == ON_MFL;
       var c := if onMfl then s.cf else s.ca;
       k < |c| && c[k] == m && InArena(c, |d.mlink|) && d1 == Moved(d, c, k, e, onMfl)
  }

  lemma CarriedSound(b: Blocks, ofdlist: int, d: Descs, s: Shape, n: nat, m: int, k: nat, e: int, d1: Descs)
    returns (s': Shape)
    requires Sound(b, ofdlist, d, s, n) && Carried(d, s, m, k, e, d1)
    requires s.kind[e] == FREE && InUse(b, s.bl, e) && m / 4 != e / 4
    ensures |d1.own| == |s.kind|
    ensures Sound(b, ofdlist, d1.(own := d1.own[m := MF_FREE]), s', n)
    ensures Gone(d, s, d1.(own := d1.own[m := MF_FREE]), s', m, e)
  {
    HoldsFacts(d.mlink, d.mfl, s.cf, s.kind, ON_MFL);
    HoldsFacts(d.mlink, d.mal, s.ca, s.kind, ON_MAL);
    hide Sound, InArena, Distinct, InUse, Moved, LinkMoved, Gone;
    RelocateSound(b, ofdlist, d, s, n, k, e, s.kind[m] == ON_MFL);
    s' := MovedShape(s, k, e, s.kind[m] == ON_MFL);
  }

  // Descriptor m has left its block, for slot e if it was on a list; both lists say what they said.
  ghost predicate Gone(d: Descs, s: Shape, d': Descs, s': Shape, m: int, e: int) {
    && s'.bl == s.bl && SameListed(d, s, d', s')
    && Moving(s.cf, s'.cf, m / 4) && Moving(s.ca, s'.ca, m / 4)
    && 0 <= m < |d.own| == |s.kind|
    && if s.kind[m] == LOOSE then d'.own == d.own[m := MF_FREE] && s'.kind == s.kind[m := FREE]
       else
         && 0 <= e < |d.own|
         && d'.own == d.own[e := d.own[m]][m := MF_FREE] && s'.kind == s.kind[e := s.kind[m]][m := FREE]
  }

  // Position k of the list that onMfl names, and a free slot of another block.
  ghost predicate CanMove(b: Blocks, d: Descs, s: Shape, k: nat, e: int, onMfl: bool) {
    && k < |if onMfl then s.cf else s.ca| && 0 <= e < |s.kind| && s.kind[e] == FREE && InUse(b, s.bl, e)
    && (if onMfl then s.cf else s.ca)[k] / 4 != e / 4
    && |d.start| == |d.length| == |d.own| == |d.mlink| == |s.kind|
    && InArena(s.cf, |d.own|) && InArena(s.ca, |d.own|)
  }

  /** Moving a descriptor of a list and freeing its slot keeps the pool sound. */
  lemma RelocateSound(b: Blocks, ofdlist: int, d: Descs, s: Shape, n: nat, k: nat, e: int, onMfl: bool)
    requires Sound(b, ofdlist, d, s, n) && CanMove(b, d, s, k, e, onMfl)
    ensures
      var c := if onMfl then s.cf else s.ca;
      var d1, s' := Moved(d, c, k, e, onMfl), MovedShape(s, k, e, onMfl);
      && |d1.own| == |d.own|
      && Sound(b, ofdlist, d1.(own := d1.own[c[k] := MF_FREE]), s', n)
      && Gone(d, s, d1.(own := d1.own[c[k] := MF_FREE]), s', c[k], e)
  {
    var c := if onMfl then s.cf else s.ca;
    hide Sized, InUse, Chain, Holds, SameListed, Moving, Kinds, Lists, Moved, LinkMoved, MovedShape;
    RelocateListed(b, d, s, k, e, onMfl);
    RelocateKinds(b, d, s, k, e, onMfl);
    RelocateSized(b, d, s, n, k, e, onMfl);
  }

  lemma RelocateSized(b: Blocks, d: Descs, s: Shape, n: nat, k: nat, e: int, onMfl: bool)
    requires Sized(b, d, s, n) && CanMove(b, d, s, k, e, onMfl)
    ensures Sized(b, Relocated(d, if onMfl then s.cf else s.ca, k, e, onMfl), MovedShape(s, k, e, onMfl), n)
    ensures |Moved(d, if onMfl then s.cf else s.ca, k, e, onMfl).own| == |d.own|
  {
  }

  lemma RelocateKinds(b: Blocks, d: Descs, s: Shape, k: nat, e: int, onMfl: bool)
    requires Kinds(b, d.own, s) && Lists(d, s) && CanMove(b, d, s, k, e, onMfl)
    ensures
      var c := if onMfl then s.cf else s.ca;
      var d', s' := Relocated(d, c, k, e, onMfl), MovedShape(s, k, e, onMfl);
      && s'.bl == s.bl && s.kind[c[k]] == (if onMfl then ON_MFL else ON_MAL)
      && s'.kind == s.kind[e := s.kind[c[k]]][c[k] := FREE]
      && d'.own == d.own[e := d.own[c[k]]][c[k] := MF_FREE]
      && Kinds(b, d'.own, s')
  {
    var c := if onMfl then s.cf else s.ca;
    hide Chain, InUse;
    ListKinds(d, s, k, onMfl);
    hide Lists, Kinds;
    KindsMoved(b, d.own, s, c[k], e);
    SameKinds(b, d.own[e := d.own[c[k]]][c[k] := MF_FREE], s.(kind := s.kind[e := s.kind[c[k]]][c[k] := FREE]),
              MovedShape(s, k, e, onMfl));
  }

  lemma ListKinds(d: Descs, s: Shape, k: nat, onMfl: bool)
    requires Lists(d, s) && k < |if onMfl then s.cf else s.ca|
    ensures 0 <= (if onMfl then s.cf else s.ca)[k] < |s.kind|
    ensures s.kind[(if onMfl then s.cf else s.ca)[k]] == if onMfl then ON_MFL else ON_MAL
  {
    HoldsFacts(d.mlink, if onMfl then d.mfl else d.mal, if onMfl then s.cf else s.ca, s.kind,
      if onMfl then ON_MFL else ON_MAL);
  }

  // What a slot holds does not depend on the order of the lists.
  lemma SameKinds(b: Blocks, own: seq<int>, s: Shape, s': Shape)
    requires Kinds(b, own, s) && s'.kind == s.kind && s'.bl == s.bl
    ensures Kinds(b, own, s')
  {
  }

  /** The lists say the same, and lead to other places only where they led to the block of the descriptor. */
  lemma RelocateListed(b: Blocks, d: Descs, s: Shape, k: nat, e: int, onMfl: bool)
    requires Lists(d, s) && CanMove(b, d, s, k, e, onMfl)
    ensures
      var c := if onMfl then s.cf else s.ca;
      var d', s' := Relocated(d, c, k, e, onMfl), MovedShape(s, k, e, onMfl);
      && Lists(d', s') && SameListed(d, s, d', s')
      && Moving(s.cf, s'.cf, c[k] / 4) && Moving(s.ca, s'.ca, c[k] / 4)
  {
    hide Lists, Listed, InUse;
    var c := if onMfl then s.cf else s.ca;
    MovedLists(d, s, k, e, onMfl);
    MovedListed(d, s, k, e, onMfl);
    var s' := MovedShape(s, k, e, onMfl);
    MovedIs(d, c, k, e, onMfl);
    hide Moved, LinkMoved;
    SlotFreed(Moved(d, c, k, e, onMfl), Relocated(d, c, k, e, onMfl), s', c[k]);
  }

  lemma KindsMoved(b: Blocks, own: seq<int>, s: Shape, m: int, e: int)
    requires Kinds(b, own, s) && 0 <= m < |own| && s.kind[m] != FREE
    requires InUse(b, s.bl, e) && 0 <= e < |own| && s.kind[e] == FREE
    ensures Kinds(b, own[e := own[m]][m := MF_FREE], s.(kind := s.kind[e := s.kind[m]][m := FREE]))
  {
    var own', kind' := own[e := own[m]][m := MF_FREE], s.kind[e := s.kind[m]][m := FREE];
    assert e != m && InUse(b, s.bl, m) && own[m] != MF_FREE;
    forall i | 0 <= i < |kind'|
      ensures kind'[i] in {FREE, ON_MFL, ON_MAL, LOOSE}
      ensures kind'[i] != FREE ==> InUse(b, s.bl, i) && own'[i] != MF_FREE
      ensures kind'[i] == FREE && InUse(b, s.bl, i) ==> own'[i] == MF_FREE
    {
      assert s.kind[i] in {FREE, ON_MFL, ON_MAL, LOOSE} && s.kind[m] in {FREE, ON_MFL, ON_MAL, LOOSE};
    }
  }

  lemma SlotFreed(d: Descs, d': Descs, s: Shape, m: int)
    requires Lists(d, s) && |d.start| == |d.length| == |d.own| == |d.mlink|
    requires 0 <= m < |s.kind| == |d.own| && s.kind[m] != ON_MFL && s.kind[m] != ON_MAL
    requires d' == d.(own := d.own[m := MF_FREE])
    ensures InArena(s.cf, |d.own|) && InArena(s.ca, |d.own|)
    ensures Lists(d', s) && Listed(d', s.cf) == Listed(d, s.cf) && Listed(d', s.ca) == Listed(d, s.ca)
  {
    HoldsFacts(d.mlink, d.mfl, s.cf, s.kind, ON_MFL);
    HoldsFacts(d.mlink, d.mal, s.ca, s.kind, ON_MAL);
    hide Holds;
    ListedKept(d, d', s.cf, m);
    ListedKept(d, d', s.ca, m);
  }

  /** Freeing a descriptor that is on no list: the lists do not notice, the descriptor is lost. */
  lemma LooseSound(b: Blocks, ofdlist: int, d: Descs, s: Shape, n: nat, m: int)
    requires Sound(b, ofdlist, d, s, n) && 0 <= m < |s.kind| && s.kind[m] == LOOSE
    ensures |d.own| == |s.kind|
    ensures
      var d', s' := d.(own := d.own[m := MF_FREE]), s.(kind := s.kind[m := FREE]);
      Sound(b, ofdlist, d', s', n) && forall e :: Gone(d, s, d', s', m, e)
  {
    hide Holds, Listed, InUse, Chain;
    var d', s' := d.(own := d.own[m := MF_FREE]), s.(kind := s.kind[m := FREE]);
    SlotFreed(d, d', s, m);
    HoldsKept(d.mlink, d.mlink, d.mfl, s.cf, s.kind, s'.kind, ON_MFL);
    HoldsKept(d.mlink, d.mlink, d.mal, s.ca, s.kind, s'.kind, ON_MAL);
  }

  /** Freeing a descriptor that is on a list leaves no sound pool: the lists still lead to it. */
  lemma ListedFreed(b: Blocks, ofdlist: int, d: Descs, d': Descs, s: Shape, n: nat, m: int)
    requires Sound(b, ofdlist, d, s, n) && 0 <= m < |s.kind| && s.kind[m] in {ON_MFL, ON_MAL}
    requires d' == d.(own := d'.own) && |d'.own| == |s.kind| && d'.own[m] == MF_FREE
    ensures forall s' :: !Sound(b, ofdlist, d', s', n)
  {
    forall s'
      ensures !Sound(b, ofdlist, d', s', n)
    {
      if Lists(d', s') && |s'.kind| == |s.kind| {
        SameKind(d, d', s, s', m);
      }
      hide Lists, Chain;
    }
  }

  // The links alone tell what a listed descriptor is used for.
  lemma SameKind(d: Descs, d': Descs, s: Shape, s': Shape, m: int)
    requires Lists(d, s) && Lists(d', s') && d' == d.(own := d'.own)
    requires 0 <= m < |s.kind| == |s'.kind| && s.kind[m] in {ON_MFL, ON_MAL}
    ensures s'.kind[m] == s.kind[m]
  {
    HoldsFacts(d.mlink, d.mfl, s.cf, s.kind, ON_MFL);
    HoldsFacts(d.mlink, d.mal, s.ca, s.kind, ON_MAL);
    ChainUnique(d.mlink, d.mfl, s.cf, s'.cf);
    ChainUnique(d.mlink, d.mal, s.ca, s'.ca);
    HoldsFacts(d.mlink, d.mfl, s'.cf, s'.kind, ON_MFL);
    HoldsFacts(d.mlink, d.mal, s'.ca, s'.kind, ON_MAL);
    hide Chain;
    if s.kind[m] == ON_MFL {
      assert m in s'.cf;
    } else {
      assert m in s'.ca;
    }
  }

  // Both lists say the same: start, length and owner of each descriptor, in order.
  ghost predicate SameListed(d: Descs, s: Shape, d': Descs, s': Shape) {
    && |d.start| == |d.length| == |d.own| == |d'.start| == |d'.length| == |d'.own|
    && InArena(s.cf, |d.own|) && InArena(s.ca, |d.own|) && InArena(s'.cf, |d.own|) && InArena(s'.ca, |d.own|)
    && Listed(d', s'.cf) == Listed(d, s.cf) && Listed(d', s'.ca) == Listed(d, s.ca)
  }

  // A block without a free slot, or not of descriptors, has no weight.
  lemma NothingIn(own: seq<int>, flag: seq<int>, q: int)
    ensures !(0 <= q < |flag|) || flag[q] <= 0 || Taken(own, q, 4) ==> Weight(own, flag, q) == 0
  {
  }

  // No free descriptor in the first k blocks; q is the last unused one of them, or NIL.
  ghost predicate Sought(own: seq<int>, flag: seq<int>, bl: seq<int>, k: nat, q: int) {
    && k <= |bl| && (forall j :: 0 <= j < k ==> Weight(own, flag, bl[j]) == 0)
    && if q == NIL then NoUnused(flag, bl[..k], 0) else LastUnused(flag, bl[..k], q) && q in bl
  }

  lemma SoughtNone(own: seq<int>, flag: seq<int>, bl: seq<int>)
    ensures Sought(own, flag, bl, 0, NIL)
  {
  }

  lemma SoughtNext(own: seq<int>, flag: seq<int>, bl: seq<int>, k: nat, q: int)
    requires Sought(own, flag, bl, k, q) && k < |bl| && 0 <= bl[k] < |flag|
    requires (flag[bl[k]] > 0 ==> Taken(own, bl[k], 4))
    ensures Sought(own, flag, bl, k + 1, if flag[bl[k]] == 0 then bl[k] else q)
  {
    NothingIn(own, flag, bl[k]);
    hide Weight, Taken;
    var was, now := bl[..k], bl[..k + 1];
    assert now == was + [bl[k]];
    if flag[bl[k]] == 0 {
      assert now[k] == bl[k];
      assert NoUnused(flag, now, k + 1);
    } else if q != NIL {
      var m :| 0 <= m < |was| && was[m] == q && NoUnused(flag, was, m + 1);
      assert now[m] == q && NoUnused(flag, now, m + 1);
    }
  }

  lemma SoughtFree(own: seq<int>, flag: seq<int>, bl: seq<int>, k: nat, q: int, i: int)
    requires Sought(own, flag, bl, k, q) && k < |bl| && 0 <= bl[k] < |flag| && flag[bl[k]] > 0
    requires 0 <= i < 4 && 4 * bl[k] + 4 <= |own| && own[4 * bl[k] + i] == MF_FREE && Taken(own, bl[k], i)
    ensures Total(own, flag, bl) > 0 && FirstFree(own, flag, bl, 4 * bl[k] + i)
  {
    SomethingIn(own, flag, bl[k], i);
    TotalZero(own, flag, bl);
    hide Total, Weight, Taken;
    assert (4 * bl[k] + i) / 4 == bl[k] && (4 * bl[k] + i) % 4 == i;
  }

  lemma SoughtAll(own: seq<int>, flag: seq<int>, bl: seq<int>, k: nat, q: int)
    requires Sought(own, flag, bl, k, q) && k == |bl|
    ensures Total(own, flag, bl) == 0
    ensures if q == NIL then !HasUnused(flag, bl)
            else q in bl && 0 <= q < |flag| && flag[q] == 0 && HasUnused(flag, bl) && LastUnused(flag, bl, q)
  {
    assert bl[..k] == bl;
    TotalZero(own, flag, bl);
    hide Total, Weight;
  }

  lemma SomethingIn(own: seq<int>, flag: seq<int>, q: int, i: int)
    requires 0 <= q < |flag| && flag[q] > 0 && 0 <= i < 4 && 4 * q + 4 <= |own| && own[4 * q + i] == MF_FREE
    ensures Weight(own, flag, q) > 0
  {
  }

  // The blocks put in front of the list one after the other.
  function Stacked(more: seq<int>, bl: seq<int>): seq<int>
    decreases |more|
  {
    if more == [] then bl else Stacked(more[1..], [more[0]] + bl)
  }

  lemma StackedStep(more: seq<int>, bl: seq<int>)
    ensures more != [] ==> Stacked(more, bl) == Stacked(more[1..], [more[0]] + bl)
    ensures more == [] ==> Stacked(more, bl) == bl
  {
  }

  /** The last one comes first, and what was on the list stays behind them. */
  lemma {:induction false} StackedAt(more: seq<int>, bl: seq<int>, j: nat)
    requires j < |more| + |bl|
    ensures |Stacked(more, bl)| == |more| + |bl|
    ensures Stacked(more, bl)[j] == if j < |more| then more[|more| - 1 - j] else bl[j - |more|]
    decreases |more|
  {
    if more != [] {
      StackedAt(more[1..], [more[0]] + bl, j);
    }
  }

  // The first free descriptor of the first block that has any.
  ghost predicate FirstFree(own: seq<int>, flag: seq<int>, bl: seq<int>, x: int) {
    && 0 <= x < |own| && own[x] == MF_FREE && 0 <= x / 4 < |flag| && flag[x / 4] > 0 && Taken(own, x / 4, x % 4)
    && exists k :: 0 <= k < |bl| && bl[k] == x / 4 && forall j :: 0 <= j < k ==> Weight(own, flag, bl[j]) == 0
  }

  // Unused, or made for descriptors of which none is in use.
  ghost predicate Spare(own: seq<int>, flag: seq<int>, b: int) {
    0 <= b < |flag| && (flag[b] == 0 || (flag[b] > 0 && FreeOf(own, b) == 4))
  }

  ghost predicate HasSpare(own: seq<int>, flag: seq<int>, bl: seq<int>) {
    exists k :: 0 <= k < |bl| && Spare(own, flag, bl[k])
  }

  ghost predicate FirstSpare(own: seq<int>, flag: seq<int>, bl: seq<int>, p: int) {
    exists k :: 0 <= k < |bl| && bl[k] == p && Spare(own, flag, p) && forall j :: 0 <= j < k ==>
      !Spare(own, flag, bl[j])
  }

  ghost predicate HasUnused(flag: seq<int>, bl: seq<int>) {
    exists k :: 0 <= k < |bl| && 0 <= bl[k] < |flag| && flag[bl[k]] == 0
  }

  ghost predicate LastUnused(flag: seq<int>, bl: seq<int>, q: int) {
    && 0 <= q < |flag| && flag[q] == 0
    && exists k :: 0 <= k < |bl| && bl[k] == q && NoUnused(flag, bl, k + 1)
  }

  ghost predicate NoUnused(flag: seq<int>, bl: seq<int>, k: int) {
    forall j :: 0 <= k <= j < |bl| ==> 0 <= bl[j] < |flag| && flag[bl[j]] != 0
  }

  // A block with its last descriptor handed out and the other ones free; nothing else has changed.
  ghost predicate Opened(own0: seq<int>, own: seq<int>, p: int) {
    && |own| == |own0| && 0 <= p && 4 * p + 4 <= |own|
    && own[4 * p] == own[4 * p + 1] == own[4 * p + 2] == MF_FREE && own[4 * p + 3] == 0
    && forall m :: 0 <= m < |own| && m / 4 != p ==> own[m] == own0[m]
  }

  lemma OpenedLast(own0: seq<int>, own: seq<int>, p: int)
    requires 0 <= p && 4 * p + 4 <= |own0| && |own| == |own0|
    requires own == own0[4 * p := MF_FREE][4 * p + 1 := MF_FREE][4 * p + 2 := MF_FREE][4 * p + 3 := MF_FREE]
    ensures (4 * p + 3) / 4 == p && (4 * p + 3) % 4 == 3 && Opened(own0, own[4 * p + 3 := 0], p)
  {
  }

  lemma {:induction false} TotalZero(own: seq<int>, flag: seq<int>, bl: seq<int>)
    ensures Total(own, flag, bl) >= 0
    ensures Total(own, flag, bl) == 0 <==> forall j :: 0 <= j < |bl| ==> Weight(own, flag, bl[j]) == 0
    decreases |bl|
  {
    if bl != [] {
      var n := |bl| - 1;
      TotalZero(own, flag, bl[..n]);
      WeightRange(own, flag, bl[n]);
      assert forall j :: 0 <= j < n ==> bl[..n][j] == bl[j];
    }
  }

  lemma DistinctBlocks(bl: seq<int>, i: int, j: int)
    requires Distinct(bl)
    ensures 0 <= i < j < |bl| ==> bl[i] != bl[j]
  {
  }
}
