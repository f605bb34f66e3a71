/** The dispatcher's process lists, the ring of fork processes, and the wake-up of waiting processes (aes/gemdisp.c). */
module ProcessLists {
  import opened Chains

  // The list a process is on; FREE while disp has it in hand.
  const RLR: int := 0  // ready
  const DRL: int := 1  // to be made ready
  const NRL: int := 2  // not ready

  // The three lists, first one first.
  datatype Queues = Queues(rl: seq<int>, dl: seq<int>, nl: seq<int>)

  ghost predicate Lists(plink: seq<int>, rlr: int, drl: int, nrl: int, g: Queues, on: seq<int>) {
    && Holds(plink, rlr, g.rl, on, RLR) && Holds(plink, drl, g.dl, on, DRL) && Holds(plink, nrl, g.nl, on, NRL)
  }

  // No process sleeps on an event that has completed.
  ghost predicate Awake(on: seq<int>, evwait: seq<set<int>>, evflg: seq<set<int>>) {
    && |on| == |evwait| == |evflg|
    && forall p :: 0 <= p < |on| && on[p] == NRL ==> evwait[p] * evflg[p] == {}
  }

  // Since on0 and flg0 exactly those sleepers woke that had an event come; nobody went to sleep, no event was lost.
  ghost predicate Woken(on0: seq<int>, flg0: seq<set<int>>, on: seq<int>, flg: seq<set<int>>, evwait: seq<set<int>>) {
    && |on0| == |on| == |flg0| == |flg| == |evwait|
    && (forall p :: 0 <= p < |on| ==> flg0[p] <= flg[p])
    && forall p :: 0 <= p < |on| ==> (on[p] == NRL <==> on0[p] == NRL && evwait[p] * flg[p] == {})
  }

  lemma WokenStart(on: seq<int>, evwait: seq<set<int>>, flg: seq<set<int>>)
    requires Awake(on, evwait, flg)
    ensures Woken(on, flg, on, flg, evwait)
  {
  }

  lemma WokenTrans(on0: seq<int>, flg0: seq<set<int>>, on1: seq<int>, flg1: seq<set<int>>, on2: seq<int>,
                   flg2: seq<set<int>>,
                   evwait: seq<set<int>>)
    requires Woken(on0, flg0, on1, flg1, evwait) && Woken(on1, flg1, on2, flg2, evwait)
    ensures Woken(on0, flg0, on2, flg2, evwait)
  {
    forall p | 0 <= p < |on2|
      ensures flg0[p] <= flg2[p]
      ensures on2[p] == NRL <==> on0[p] == NRL && evwait[p] * flg2[p] == {}
    {
      assert flg0[p] <= flg1[p] <= flg2[p];
      assert evwait[p] * flg1[p] <= evwait[p] * flg2[p];
    }
  }

  lemma WokenReady(on0: seq<int>, flg0: seq<set<int>>, on1: seq<int>, on2: seq<int>, flg: seq<set<int>>,
                   evwait: seq<set<int>>)
    requires Woken(on0, flg0, on1, flg, evwait) && |on2| == |on1|
    requires forall p :: 0 <= p < |on1| ==> on2[p] == if on1[p] == DRL then RLR else on1[p]
    ensures Woken(on0, flg0, on2, flg, evwait)
  {
  }

  // The running process p, unless it is just ready to go on, is taken for asleep.
  function Asleep(on: seq<int>, run: seq<bool>, p: int): seq<int>
    requires |run| == |on| && 0 <= p < |on|
  {
    if run[p] then on else on[p := NRL]
  }

  lemma SignalWoken(on: seq<int>, flg: seq<set<int>>, evwait: seq<set<int>>, p: int, b: int, on': seq<int>)
    requires Awake(on, evwait, flg) && 0 <= p < |on|
    requires on' == if on[p] == NRL && evwait[p] * (flg[p] + {b}) != {} then on[p := DRL] else on
    ensures Woken(on, flg, on', flg[p := flg[p] + {b}], evwait)
  {
  }

  lemma ListFacts(plink: seq<int>, head: int, c: seq<int>, on: seq<int>, w: int)
    requires Holds(plink, head, c, on, w)
    ensures |on| == |plink| && head == Head(c, NIL)
    ensures forall i :: 0 <= i < |c| ==> 0 <= c[i] < |plink| && on[c[i]] == w
    ensures forall p :: 0 <= p < |on| && on[p] == w ==> p in c
  {
  }

  lemma LinkAt(plink: seq<int>, head: int, c: seq<int>, on: seq<int>, w: int, k: nat)
    requires Holds(plink, head, c, on, w) && k < |c|
    ensures 0 <= c[k] < |plink| == |on| && on[c[k]] == w && plink[c[k]] == After(c, k, NIL)
  {
  }

  /** A new last node. */
  lemma HoldsAppend(link: seq<int>, head: int, c: seq<int>, owner: seq<int>, w: int, e: int)
    requires Holds(link, head, c, owner, w) && 0 <= e < |link| && owner[e] != w
    ensures
      var own := link[e := NIL];
      && (c != [] ==> 0 <= c[|c| - 1] < |link|)
      && Holds(if c == [] then own else own[c[|c| - 1] := e], if c == [] then e else head, c + [e], owner[e := w], w)
  {
    assert forall i :: 0 <= i < |c| ==> owner[c[i]] == w;
    assert Apart(c, [e]);
    InsertLink(link, c, |c|, e, NIL);
    assert Inserted(c, |c|, e) == c + [e];
    assert forall n :: n in c + [e] <==> n in c || n == e;
  }

  /** The first ready process is taken in hand. */
  lemma TakeFirst(plink: seq<int>, rlr: int, drl: int, nrl: int, g: Queues, on: seq<int>)
    requires Lists(plink, rlr, drl, nrl, g, on) && g.rl != []
    ensures 0 <= rlr < |plink| == |on| && rlr == g.rl[0] && on[rlr] == RLR && rlr !in g.rl[1..]
    ensures Lists(plink, plink[rlr], drl, nrl, g.(rl := g.rl[1..]), on[rlr := FREE])
  {
    ListFacts(plink, rlr, g.rl, on, RLR);
    HoldsUnlink(plink, rlr, g.rl, on, RLR, 0, FREE);
    assert Without(g.rl, 0) == g.rl[1..];
    ListFacts(plink, plink[rlr], g.rl[1..], on[rlr := FREE], RLR);
    HoldsKept(plink, plink, drl, g.dl, on, on[rlr := FREE], DRL);
    HoldsKept(plink, plink, nrl, g.nl, on, on[rlr := FREE], NRL);
  }

  /** The first process to be made ready is taken in hand. */
  lemma TakeWoken(plink: seq<int>, rlr: int, drl: int, nrl: int, g: Queues, on: seq<int>)
    requires Lists(plink, rlr, drl, nrl, g, on) && g.dl != []
    ensures 0 <= drl < |plink| == |on| && drl == g.dl[0] && on[drl] == DRL
    ensures Lists(plink, rlr, plink[drl], nrl, g.(dl := g.dl[1..]), on[drl := FREE])
  {
    ListFacts(plink, drl, g.dl, on, DRL);
    HoldsUnlink(plink, drl, g.dl, on, DRL, 0, FREE);
    assert Without(g.dl, 0) == g.dl[1..];
    HoldsKept(plink, plink, rlr, g.rl, on, on[drl := FREE], RLR);
    HoldsKept(plink, plink, nrl, g.nl, on, on[drl := FREE], NRL);
  }

  /** A process in hand goes to the end of the ready list. */
  lemma MakeReady(plink: seq<int>, rlr: int, drl: int, nrl: int, g: Queues, on: seq<int>, p: int)
    requires Lists(plink, rlr, drl, nrl, g, on) && 0 <= p < |on| && on[p] == FREE
    ensures |plink| == |on| && (g.rl != [] ==> 0 <= g.rl[|g.rl| - 1] < |plink|)
    ensures
      var own := plink[p := NIL];
      var link' := if g.rl == [] then own else own[g.rl[|g.rl| - 1] := p];
      Lists(link', if g.rl == [] then p else rlr, drl, nrl, g.(rl := g.rl + [p]), on[p := RLR])
  {
    ListFacts(plink, rlr, g.rl, on, RLR);
    HoldsAppend(plink, rlr, g.rl, on, RLR, p);
    var own := plink[p := NIL];
    var link' := if g.rl == [] then own else own[g.rl[|g.rl| - 1] := p];
    HoldsKept(plink, link', drl, g.dl, on, on[p := RLR], DRL);
    HoldsKept(plink, link', nrl, g.nl, on, on[p := RLR], NRL);
  }

  /** A process in hand goes to sleep. */
  lemma MakeSleep(plink: seq<int>, rlr: int, drl: int, nrl: int, g: Queues, on: seq<int>, p: int)
    requires Lists(plink, rlr, drl, nrl, g, on) && 0 <= p < |on| && on[p] == FREE
    ensures |plink| == |on|
    ensures Lists(plink[p := nrl], rlr, drl, p, g.(nl := [p] + g.nl), on[p := NRL])
  {
    ListFacts(plink, rlr, g.rl, on, RLR);
    HoldsPush(plink, nrl, g.nl, on, NRL, p);
    HoldsKept(plink, plink[p := nrl], rlr, g.rl, on, on[p := NRL], RLR);
    HoldsKept(plink, plink[p := nrl], drl, g.dl, on, on[p := NRL], DRL);
  }

  /** A new process, to be made ready first. */
  lemma NewWoken(plink: seq<int>, rlr: int, drl: int, nrl: int, g: Queues, on: seq<int>)
    requires Lists(plink, rlr, drl, nrl, g, on)
    ensures |plink| == |on|
    ensures Lists(plink + [drl], rlr, |plink|, nrl, g.(dl := [|plink|] + g.dl), on + [DRL])
  {
    var p, link', on' := |plink|, plink + [NIL], on + [FREE];
    HoldsKept(plink, link', rlr, g.rl, on, on', RLR);
    HoldsKept(plink, link', drl, g.dl, on, on', DRL);
    HoldsKept(plink, link', nrl, g.nl, on, on', NRL);
    HoldsPush(link', drl, g.dl, on', DRL, p);
    assert link'[p := drl] == plink + [drl] && on'[p := DRL] == on + [DRL];
    HoldsKept(link', plink + [drl], rlr, g.rl, on', on + [DRL], RLR);
    HoldsKept(link', plink + [drl], nrl, g.nl, on', on + [DRL], NRL);
  }

  /** A sleeping process, at position k, is moved to the ones to be made ready. */
  lemma Wake(plink: seq<int>, rlr: int, drl: int, nrl: int, g: Queues, on: seq<int>, k: nat)
    requires Lists(plink, rlr, drl, nrl, g, on) && k < |g.nl|
    ensures 0 <= g.nl[k] < |plink| == |on| && on[g.nl[k]] == NRL && (k > 0 ==> 0 <= g.nl[k - 1] < |plink|)
    ensures
      var p := g.nl[k];
      var link1 := if k == 0 then plink else plink[g.nl[k - 1] := plink[p]];
      Lists(link1[p := drl], rlr, p, if k == 0 then plink[p] else nrl,
            g.(dl := [p] + g.dl, nl := Without(g.nl, k)), on[p := DRL])
  {
    hide Holds, Without;
    ListFacts(plink, nrl, g.nl, on, NRL);
    var p := g.nl[k];
    var link1 := if k == 0 then plink else plink[g.nl[k - 1] := plink[p]];
    var link2, on' := link1[p := drl], on[p := DRL];
    assert k > 0 ==> on[g.nl[k - 1]] == NRL;
    HoldsUnlink(plink, nrl, g.nl, on, NRL, k, DRL);
    HoldsKept(link1, link2, if k == 0 then plink[p] else nrl, Without(g.nl, k), on', on', NRL);
    HoldsKept(plink, link1, drl, g.dl, on, on, DRL);
    HoldsPush(link1, drl, g.dl, on, DRL, p);
    HoldsKept(plink, link2, rlr, g.rl, on, on', RLR);
  }
}

module Dispatcher {
  import opened Chains
  import opened ProcessLists

  // What rlr holds while fork processes run.
  const NOBODY: int := -2

  // The events that a fork process completes: the process and the bit of each.
  datatype Fork = Fork(wakes: seq<(int, int)>)

  class Scheduler {
    var plink: seq<int>
    var rlr: int
    var drl: int
    var nrl: int
    var run: seq<bool>         // PS_RUN of every process
    var evwait: seq<set<int>>
    var evflg: seq<set<int>>
    var fpdx: seq<Fork>        // g_fpdx
    var fpt: int
    var fph: int
    var fpcnt: int
    ghost var g: Queues
    ghost var on: seq<int>

    // The lists, when the ready list starts at head.
    ghost predicate Sched(head: int)
      reads this`plink, this`drl, this`nrl, this`g, this`on
    {
      Lists(plink, head, drl, nrl, g, on)
    }

    ghost predicate NoneLost()
      reads this`on, this`evwait, this`evflg, this`run
    {
      Awake(on, evwait, evflg) && |run| == |on|
    }

    // Every process is on exactly one list.
    ghost predicate AllListed()
      reads this`on
    {
      forall p :: 0 <= p < |on| ==> on[p] == RLR || on[p] == DRL || on[p] == NRL
    }

    ghost predicate Ring()
      reads this`fpdx, this`fpt, this`fph, this`fpcnt
    {
      && |fpdx| > 0 && 0 <= fpcnt <= |fpdx| && 0 <= fph < |fpdx|
      && fpt == if fph + fpcnt < |fpdx| then fph + fpcnt else fph + fpcnt - |fpdx|
    }

    // The fork processes in the ring, in the order in which they came.
    ghost function Waiting(): (q: seq<Fork>)
      requires Ring()
      reads this`fpdx, this`fpt, this`fph, this`fpcnt
      ensures |q| == fpcnt
    {
      InRing(fpdx, fph, fpcnt)
    }

    ghost predicate Valid()
      reads this
    {
      Sched(rlr) && NoneLost() && AllListed() && Ring()
    }

    // The first process is running and the ring of forks entries is empty.
    constructor (forks: nat, idle: Fork)
      requires forks > 0
      ensures Valid() && rlr == 0 && g == Queues([0], [], []) && Waiting() == [] && |fpdx| == forks
    {
      plink, rlr, drl, nrl := [NIL], 0, NIL, NIL;
      run, evwait, evflg := [true], [{}], [{}];
      fpdx, fpt, fph, fpcnt := seq(forks, _ => idle), 0, 0, 0;
      g, on := Queues([0], [], []), [RLR];
    }

    /** pstart: a new process is to be made ready first. */
    method Pstart() returns (px: int)
      requires Valid()
      modifies this`plink, this`drl, this`run, this`evwait, this`evflg, this`g, this`on
      ensures Valid() && px == |old(on)| && on == old(on) + [DRL] && run == old(run) + [true]
      ensures evwait == old(evwait) + [{}] && evflg == old(evflg) + [{}]
      ensures g == old(g).(dl := [px] + old(g.dl))
    {
      NewWoken(plink, rlr, drl, nrl, g, on);
      hide Lists;
      px := |plink|;
      plink := plink + [drl];
      drl := px;
      run, evwait, evflg := run + [true], evwait + [{}], evflg + [{}];
      g := g.(dl := [px] + g.dl);
      on := on + [DRL];
    }

    /** forkq: a fork process enters the ring unless it is full. */
    method Forkq(f: Fork) returns (ok: bool)
      requires Ring()
      modifies this`fpdx, this`fpt, this`fpcnt
      ensures Ring() && |fpdx| == |old(fpdx)| && ok == (old(fpcnt) < |fpdx|)
      ensures Waiting() == if ok then old(Waiting()) + [f] else old(Waiting())
    {
      ok := fpcnt < |fpdx|;
      if ok {
        RingPut(fpdx, fph, fpcnt, f);
        fpdx := fpdx[fpt := f];
        fpt := fpt + 1;
        if fpt == |fpdx| {
          fpt := 0;
        }
        fpcnt := fpcnt + 1;
      }
    }

    /** signal: an event of process p completes; a process that sleeps on it is woken. */
    method Signal(p: int, b: int, ghost head: int)
      requires Sched(head) && NoneLost() && (rlr == head || rlr == NOBODY) && 0 <= p < |on|
      modifies this`plink, this`drl, this`nrl, this`evflg, this`g, this`on
      ensures Sched(head) && NoneLost() && |on| == |old(on)| && |evflg| == |old(evflg)|
      ensures old(AllListed()) ==> AllListed()
      ensures 0 <= p < |old(evflg)| && evflg == old(evflg)[p := old(evflg)[p] + {b}]
      ensures 0 <= p < |evwait|
      ensures on ==
        if old(on)[p] == NRL && evwait[p] * evflg[p] != {} then old(on)[p := DRL] else old(on)
      ensures g.rl == old(g.rl)
      ensures if old(on)[p] == NRL && evwait[p] * evflg[p] != {} then g.dl == [p] + old(g.dl) else g == old(g)
    {
      hide Holds;
      evflg := evflg[p := evflg[p] + {b}];
      var p1, q1;
      ghost var k;
      p1, q1, k := FindAsleep(p, head);
      if p != rlr {
        if evflg[p] * evwait[p] != {} {
          if p1 != NIL {
            Wake(plink, head, drl, nrl, g, on, k);
            if q1 == NIL {
              nrl := plink[p1];
            } else {
              plink := plink[q1 := plink[p1]];
            }
            plink := plink[p1 := drl];
            drl := p1;
            g := g.(dl := [p1] + g.dl, nl := Without(g.nl, k));
            on := on[p1 := DRL];
          }
        }
      } else {
        ListFacts(plink, head, g.rl, on, RLR);
      }
    }

    // The process on the list of sleeping ones, and the one in front of it.
    method FindAsleep(p: int, ghost head: int) returns (p1: int, q1: int, ghost k: nat)
      requires Sched(head) && 0 <= p < |on|
      ensures p1 == if on[p] == NRL then p else NIL
      ensures p1 != NIL ==> k < |g.nl| && g.nl[k] == p && q1 == (if k == 0 then NIL else g.nl[k - 1])
    {
      ListFacts(plink, nrl, g.nl, on, NRL);
      p1, q1, k := nrl, NIL, 0;
      while p1 != p && p1 != NIL
        invariant k <= |g.nl| && p1 == (if k < |g.nl| then g.nl[k] else NIL)
        invariant q1 == (if k == 0 then NIL else g.nl[k - 1])
        invariant p !in g.nl[..k]
        decreases |g.nl| - k
      {
        LinkAt(plink, nrl, g.nl, on, NRL, k);
        assert g.nl[..k + 1] == g.nl[..k] + [g.nl[k]];
        q1 := p1;
        p1 := plink[p1];
        k := k + 1;
      }
      if p1 == NIL {
        assert g.nl[..k] == g.nl;
      }
    }

    /** disp_act: a process in hand goes to the end of the ready list. */
    method DispAct(p: int)
      requires Sched(rlr) && NoneLost() && 0 <= p < |on| && on[p] == FREE
      modifies this`plink, this`rlr, this`run, this`g, this`on
      ensures Sched(rlr) && NoneLost() && on == old(on)[p := RLR] && rlr != NIL
      ensures g == old(g).(rl := old(g.rl) + [p])
      ensures 0 <= p < |old(run)| && run == old(run)[p := true]
    {
      hide Holds;
      MakeReady(plink, rlr, drl, nrl, g, on, p);
      ListFacts(plink, rlr, g.rl, on, RLR);
      run := run[p := true];
      var q := LastReady();
      plink := plink[p := NIL];
      if q == NIL {
        rlr := p;
      } else {
        plink := plink[q := p];
      }
      g := g.(rl := g.rl + [p]);
      on := on[p := RLR];
    }

    // The end of the ready list.
    method LastReady() returns (q: int)
      requires Sched(rlr)
      ensures q == if g.rl == [] then NIL else g.rl[|g.rl| - 1]
    {
      ListFacts(plink, rlr, g.rl, on, RLR);
      q := NIL;
      var pq := rlr;
      ghost var k: nat := 0;
      while pq != NIL
        invariant k <= |g.rl| && pq == (if k < |g.rl| then g.rl[k] else NIL)
        invariant q == (if k == 0 then NIL else g.rl[k - 1])
        decreases |g.rl| - k
      {
        LinkAt(plink, rlr, g.rl, on, RLR, k);
        q := pq;
        pq := plink[pq];
        k := k + 1;
      }
    }

    /** forker: all fork processes run, in the order in which they came; none of them loses a wake-up. */
    method Forker()
      requires Valid()
      modifies this`plink, this`rlr, this`drl, this`nrl, this`evflg, this`g, this`on, this`fph, this`fpcnt
      ensures Valid() && fpcnt == 0 && |on| == |old(on)| && rlr == old(rlr) && g.rl == old(g.rl)
      ensures evflg == Flags(old(evflg), old(Waiting())) && Woken(old(on), old(evflg), on, evflg, evwait)
    {
      WokenStart(on, evwait, evflg);
      hide Lists, Awake, Woken, Raised;
      var oldrl := rlr;
      rlr := NOBODY;
      ghost var on0, flg0, todo := on, evflg, Waiting();
      while fpcnt != 0
        invariant Sched(oldrl) && NoneLost() && AllListed() && Ring() && rlr == NOBODY
        invariant |on| == |old(on)| && g.rl == old(g.rl)
        invariant Waiting() == todo && Flags(evflg, todo) == Flags(flg0, old(Waiting()))
        invariant Woken(on0, flg0, on, evflg, evwait)
        decreases fpcnt
      {
        ghost var on1, flg1 := on, evflg;
        var f := NextFork();
        todo := todo[1..];
        RunFork(f, oldrl);
        WokenTrans(on0, flg0, on1, flg1, on, evflg, evwait);
      }
      rlr := oldrl;
    }

    method NextFork() returns (f: Fork)
      requires Ring() && fpcnt != 0
      modifies this`fph, this`fpcnt
      ensures Ring() && fpcnt == old(fpcnt) - 1
      ensures Waiting() == old(Waiting())[1..] && f == old(Waiting())[0]
    {
      fpcnt := fpcnt - 1;
      f := fpdx[fph];
      RingGet(fpdx, fph, fpcnt);
      fph := fph + 1;
      if fph == |fpdx| {
        fph := 0;
      }
    }

    // A fork process: the events it completes.
    method RunFork(f: Fork, ghost head: int)
      requires Sched(head) && NoneLost() && AllListed() && rlr == NOBODY
      modifies this`plink, this`drl, this`nrl, this`evflg, this`g, this`on
      ensures Sched(head) && NoneLost() && AllListed() && |on| == |old(on)| && g.rl == old(g.rl)
      ensures evflg == Raised(old(evflg), f.wakes) && Woken(old(on), old(evflg), on, evflg, evwait)
    {
      WokenStart(on, evwait, evflg);
      hide Lists, Awake, Woken;
      ghost var on0, flg0 := on, evflg;
      assert f.wakes[0..] == f.wakes;
      for i := 0 to |f.wakes|
        invariant Sched(head) && NoneLost() && AllListed() && |on| == |old(on)| && g.rl == old(g.rl)
        invariant Raised(evflg, f.wakes[i..]) == Raised(old(evflg), f.wakes)
        invariant Woken(on0, flg0, on, evflg, evwait)
      {
        SameSizes();
        assert f.wakes[i..][0] == f.wakes[i] && f.wakes[i..][1..] == f.wakes[i + 1..];
        var (p, b) := f.wakes[i];
        if 0 <= p < |evflg| {
          ghost var on1, flg1 := on, evflg;
          Signal(p, b, head);
          SignalWoken(on1, flg1, evwait, p, b, on);
          WokenTrans(on0, flg0, on1, flg1, on, evflg, evwait);
        }
      }
    }

    lemma SameSizes()
      requires NoneLost()
      ensures |on| == |evwait| == |evflg| == |run|
    {
    }

    // The loop of disp that makes the woken processes ready, the last one woken first.
    method Drain()
      requires Sched(rlr) && NoneLost() && AllListed()
      modifies this`plink, this`rlr, this`drl, this`run, this`g, this`on
      ensures Sched(rlr) && NoneLost() && AllListed() && |on| == |old(on)| && drl == NIL
      ensures g == Queues(old(g.rl) + old(g.dl), [], old(g.nl))
      ensures rlr != NIL <==> g.rl != []
      ensures forall p :: 0 <= p < |on| ==> on[p] == if old(on)[p] == DRL then RLR else old(on)[p]
      ensures |run| == |old(run)| == |on|
      ensures forall p :: 0 <= p < |on| ==> (run[p] <==> old(run)[p] || p in old(g.dl))
    {
      hide Lists, Awake;
      Roots();
      assert g.rl + g.dl == old(g.rl) + old(g.dl);
      while drl != NIL
        invariant Sched(rlr) && NoneLost() && AllListed() && |on| == |old(on)| && drl == Head(g.dl, NIL)
        invariant g.rl + g.dl == old(g.rl) + old(g.dl) && g.nl == old(g.nl)
        invariant forall p :: 0 <= p < |on| ==> on[p] == old(on)[p] || (old(on)[p] == DRL && on[p] == RLR)
        invariant |run| == |old(run)| == |on|
        invariant forall p :: 0 <= p < |on| ==> (run[p] || p in g.dl <==> old(run)[p] || p in old(g.dl))
        invariant forall p :: 0 <= p < |on| && old(run)[p] ==> run[p]
        decreases |g.dl|
      {
        assert g.dl == [g.dl[0]] + g.dl[1..];
        var p := TakeDrl();
        DispAct(p);
        Roots();
      }
      Roots();
      assert g.rl + [] == g.rl;
    }

    lemma Roots()
      requires Sched(rlr)
      ensures drl == Head(g.dl, NIL) && (drl == NIL <==> g.dl == [])
      ensures rlr == NIL <==> g.rl == []
      ensures forall p :: 0 <= p < |on| && on[p] == DRL ==> p in g.dl
      ensures forall p :: 0 <= p < |on| && on[p] == RLR ==> p in g.rl
    {
      ListFacts(plink, drl, g.dl, on, DRL);
      ListFacts(plink, rlr, g.rl, on, RLR);
    }

    method TakeDrl() returns (p: int)
      requires Sched(rlr) && NoneLost() && g.dl != []
      modifies this`drl, this`g, this`on
      ensures Sched(rlr) && NoneLost() && g == old(g).(dl := old(g.dl)[1..])
      ensures p == old(g.dl)[0] && 0 <= p < |old(on)| && old(on)[p] == DRL && on == old(on)[p := FREE]
    {
      TakeWoken(plink, rlr, drl, nrl, g, on);
      p := drl;
      drl := plink[p];
      g := g.(dl := g.dl[1..]);
      on := on[p := FREE];
    }

    /**
     disp: the current process goes to the end of the ready list, or to sleep if it waits for an event that has not
     come. Then fork processes run until none is left and somebody is ready; polls holds what each poll of the keyboard
     and the interrupts meanwhile put into the ring, and n is how many polls there are. When polls runs out, the machine
     idles. Every fork process that was in the ring or found room in it runs, in order.
     */
    method Disp(polls: seq<seq<Fork>>) returns (ghost n: nat)
      requires Valid() && rlr != NIL
      modifies this
      ensures Valid() && |on| == |old(on)| && |fpdx| == |old(fpdx)|
      ensures evwait == old(evwait) && drl == NIL && fpcnt == 0 && g.dl == []
      ensures 0 <= old(rlr) < |old(on)| == |old(run)| == |old(evwait)| == |old(evflg)|
      ensures old(g.rl) != [] && old(g.rl)[1..] + (if old(Stays()) then [old(rlr)] else []) <= g.rl
      ensures Woken(Asleep(old(on), old(run), old(rlr)), old(evflg), on, evflg, evwait)
      ensures n <= |polls| && evflg == Flags(old(evflg), old(Waiting()) + Accepted(polls[..n], |fpdx|))
      ensures (polls != [] ==> n > 0) && (n < |polls| ==> polls[n - 1] == [] && rlr != NIL)
      ensures Waited(polls, n - 1, Asleep(old(on), old(run), old(rlr)), old(evflg), evwait, old(Waiting()), |fpdx|)
      ensures |run| == |on|
      ensures forall p :: 0 <= p < |on| ==> (run[p] <==> old(run)[p] || (p in g.rl && p !in old(g.rl)[1..]))
    {
      RunningFirst();
      ghost var w0, rl1, stays := Waiting(), g.rl[1..], Stays();
      hide Lists, Awake, Woken, Asleep, Waited, Flags, Accepted, Again, Scheduler.Valid, Scheduler.Went,
        Scheduler.Polled;
      ghost var was := Begin(polls);
      n := 0;
      WaitedNone(polls, was, w0, |fpdx|);
      var more, k := true, 0;
      while more
        invariant 0 <= k == n <= |polls| && |fpdx| == |old(fpdx)| && Polled(was, w0, polls, n)
        invariant Waited(polls, if more then n else n - 1, was.on, was.flg, was.wait, w0, |fpdx|)
        invariant !more ==> Settled(polls, n) && fpcnt == 0
        decreases |polls| - n, more
      {
        RunForks(was, w0, polls, n);
        k, n := Idle(was, w0, polls, k);
        more := fpcnt != 0;
      }
      PolledFacts(was, w0, polls, n);
      if stays {
        assert was.rest == rl1 + [old(rlr)] && was.rest[|rl1|] == old(rlr);
        assert g.rl[|rl1|] == old(rlr);
      }
    }

    // The process that was running goes to its list.
    method Begin(ghost polls: seq<seq<Fork>>) returns (ghost was: Past)
      requires Valid() && rlr != NIL
      modifies this`plink, this`rlr, this`nrl, this`run, this`g, this`on
      ensures Polled(was, Waiting(), polls, 0) && |on| == |old(on)|
      ensures 0 <= old(rlr) < |old(on)| == |old(run)| == |evwait| == |evflg| && old(g.rl) != []
      ensures was.on == Asleep(old(on), old(run), old(rlr)) && was.flg == evflg && was.wait == evwait
      ensures was.rest == old(g.rl)[1..] + if old(Stays()) then [old(rlr)] else []
      ensures was.run == if old(Stays()) then old(run)[old(rlr) := true] else old(run)
      ensures old(rlr) !in old(g.rl)[1..]
    {
      RunningFirst();
      hide Lists, Awake, Woken, Asleep, Flags, Accepted, Scheduler.Valid, Scheduler.Went, Scheduler.Polled;
      ghost var w0, rl0 := Waiting(), g.rl[1..];
      was := Past(Asleep(on, run, rlr), evflg, rl0 + if Stays() then [rlr] else [], evwait, run);
      Retire();
      was := was.(run := run);
      WentStart(was, w0);
      PolledNone(was, w0, polls);
    }

    // The loop that polls until somebody is ready or a fork process has come.
    method Idle(ghost was: Past, ghost w0: seq<Fork>, polls: seq<seq<Fork>>, k0: nat) returns (k: nat, ghost n: nat)
      requires k0 <= |polls| && Polled(was, w0, polls, k0) && fpcnt == 0
      requires Waited(polls, k0, was.on, was.flg, was.wait, w0, |fpdx|)
      modifies this`fpdx, this`fpt, this`fpcnt, this`plink, this`rlr, this`drl, this`run, this`g, this`on
      ensures k0 <= k == n <= |polls| && |fpdx| == |old(fpdx)| && Polled(was, w0, polls, n)
      ensures Settled(polls, n) && (fpcnt != 0 ==> k0 < k)
      ensures Waited(polls, if fpcnt != 0 then n else n - 1, was.on, was.flg, was.wait, w0, |fpdx|)
    {
      hide Lists, Awake, Woken, Waited, Flags, Accepted, Scheduler.Valid, Scheduler.Went, Scheduler.Polled;
      k, n := k0, k0;
      var idle := true;
      while idle
        invariant k0 <= k == n <= |polls| && |fpdx| == |old(fpdx)| && Polled(was, w0, polls, n)
        invariant Waited(polls, if idle || fpcnt != 0 then n else n - 1, was.on, was.flg, was.wait, w0, |fpdx|)
        invariant (idle ==> fpcnt == 0) && (!idle ==> Settled(polls, n)) && (fpcnt != 0 ==> k0 < k)
        decreases |polls| - n, idle
      {
        var ready := k == |polls|;
        Round(if ready then [] else polls[k], was, w0, polls, n);
        if ready {
          WaitedLess(polls, n, was, w0, |fpdx|);
        } else {
          k, n := k + 1, n + 1;
        }
        idle := !ready && rlr == NIL && fpcnt == 0;
        if idle || fpcnt != 0 {
          AllAsleep(was, w0, polls, n);
          WaitedMore(polls, n, was, w0, |fpdx|);
        }
      }
    }

    // At least one poll has been taken; the last one brought nothing and somebody is ready, or a fork process has come.
    ghost predicate Settled(polls: seq<seq<Fork>>, n: nat)
      reads this`drl, this`rlr, this`fpcnt, this`g
    {
      && drl == NIL && g.dl == [] && (polls != [] ==> n > 0)
      && (fpcnt == 0 && n < |polls| ==> polls[n - 1] == [] && rlr != NIL)
    }

    // The first n polls have been taken.
    ghost predicate Polled(was: Past, w0: seq<Fork>, polls: seq<seq<Fork>>, n: nat)
      reads this
    {
      n <= |polls| && Went(was, w0 + Accepted(polls[..n], |fpdx|))
    }

    lemma PolledNone(was: Past, w0: seq<Fork>, polls: seq<seq<Fork>>)
      requires Went(was, w0)
      ensures Polled(was, w0, polls, 0)
    {
      hide Scheduler.Went;
      assert w0 + Accepted(polls[..0], |fpdx|) == w0;
    }

    // The running process goes on: it is ready, or an event it waits for has come.
    ghost predicate Stays()
      requires 0 <= rlr < |run| && rlr < |evwait| && rlr < |evflg|
      reads this`rlr, this`run, this`evwait, this`evflg
    {
      run[rlr] || evwait[rlr] * evflg[rlr] != {}
    }

    // Since disp took the process that was running in hand; fs are the fork processes there were since then.
    ghost predicate Went(was: Past, fs: seq<Fork>)
      reads this
    {
      && Valid() && evwait == was.wait && was.rest <= g.rl && Woken(was.on, was.flg, on, evflg, evwait)
      && Flags(evflg, Waiting()) == Flags(was.flg, fs)
      && |was.run| == |run| && forall p :: 0 <= p < |run| ==> (run[p] <==> was.run[p] || (p in g.rl && p !in was.rest))
    }

    lemma WentStart(was: Past, fs: seq<Fork>)
      requires Valid() && was.wait == evwait && was.rest == g.rl && Woken(was.on, was.flg, on, evflg, evwait)
      requires was.flg == evflg && was.run == run && fs == Waiting()
      ensures Went(was, fs)
    {
    }

    lemma PolledFacts(was: Past, w0: seq<Fork>, polls: seq<seq<Fork>>, n: nat)
      requires Polled(was, w0, polls, n)
      ensures Valid() && evwait == was.wait && was.rest <= g.rl && Woken(was.on, was.flg, on, evflg, evwait)
      ensures |on| == |was.on| == |run| == |was.run| == |evwait| && n <= |polls|
      ensures fpcnt == 0 ==> evflg == Flags(was.flg, w0 + Accepted(polls[..n], |fpdx|))
      ensures forall p :: 0 <= p < |run| ==> (run[p] <==> was.run[p] || (p in g.rl && p !in was.rest))
    {
      hide Lists, Awake, Accepted;
      if fpcnt == 0 {
        assert Waiting() == [];
        FlagsNone(evflg);
      }
    }

    method RunForks(ghost was: Past, ghost w0: seq<Fork>, ghost polls: seq<seq<Fork>>, ghost n: nat)
      requires Polled(was, w0, polls, n)
      modifies this`plink, this`rlr, this`drl, this`nrl, this`evflg, this`g, this`on, this`fph, this`fpcnt
      ensures Polled(was, w0, polls, n) && fpcnt == 0
    {
      hide Lists, Awake, Woken, Accepted;
      ghost var on1, flg1 := on, evflg;
      Forker();
      assert Waiting() == [];
      FlagsNone(evflg);
      WokenTrans(was.on, was.flg, on1, flg1, on, evflg, evwait);
    }

    // One poll of the keyboard; then the woken processes become ready.
    method Round(ps: seq<Fork>, ghost was: Past, ghost w0: seq<Fork>, ghost polls: seq<seq<Fork>>, ghost n: nat)
      requires Polled(was, w0, polls, n) && fpcnt == 0 && ps == if n == |polls| then [] else polls[n]
      modifies this`fpdx, this`fpt, this`fpcnt, this`plink, this`rlr, this`drl, this`run, this`g, this`on
      ensures Polled(was, w0, polls, if n == |polls| then n else n + 1) && |fpdx| == |old(fpdx)|
      ensures drl == NIL && g.dl == [] && (ps == [] <==> fpcnt == 0)
    {
      hide Lists, Awake, Woken, Flags, Accepted;
      ghost var fs := w0 + Accepted(polls[..n], |fpdx|);
      if n < |polls| {
        PollMore(w0, polls, n, |fpdx|);
      } else {
        assert fs + [] == fs;
      }
      FlagsSplit(was.flg, fs, FirstOf(ps, |fpdx|));
      FlagsNone(evflg);
      assert Waiting() == [];
      Poll(ps);
      assert [] + FirstOf(ps, |fpdx|) == FirstOf(ps, |fpdx|);
      Ready(was, fs + FirstOf(ps, |fpdx|));
    }

    // The woken processes become ready.
    method Ready(ghost was: Past, ghost fs: seq<Fork>)
      requires Went(was, fs)
      modifies this`plink, this`rlr, this`drl, this`run, this`g, this`on
      ensures Went(was, fs) && drl == NIL && g.dl == []
    {
      hide Lists, Awake, Woken, Flags;
      ghost var on1 := on;
      ToReady(was.rest);
      Drain();
      WokenReady(was.on, was.flg, on1, on, evflg, evwait);
    }

    // Those to be made ready are not among the first ready ones.
    lemma ToReady(rest: seq<int>)
      requires Sched(rlr) && rest <= g.rl
      ensures forall p :: p in g.dl ==> p !in rest
    {
      ListFacts(plink, drl, g.dl, on, DRL);
      ListFacts(plink, rlr, g.rl, on, RLR);
    }

    // Another poll is due: the last one brought a fork process, or nobody is ready.
    lemma AllAsleep(was: Past, w0: seq<Fork>, polls: seq<seq<Fork>>, n: nat)
      requires Polled(was, w0, polls, n) && n > 0 && drl == NIL
      requires polls[n - 1] == [] ==> rlr == NIL && fpcnt == 0
      ensures Again(polls, n, was.on, was.flg, was.wait, w0, |fpdx|)
    {
      hide Lists, Awake, Accepted;
      if polls[n - 1] == [] {
        Roots();
        FlagsNone(evflg);
        assert Waiting() == [];
      }
    }

    lemma RunningFirst()
      requires Valid() && rlr != NIL
      ensures 0 <= rlr < |on| == |run| && g.rl != []
    {
      ListFacts(plink, rlr, g.rl, on, RLR);
    }

    // What disp does with the process that was running.
    method Retire()
      requires Valid() && rlr != NIL
      modifies this`plink, this`rlr, this`nrl, this`run, this`g, this`on
      ensures Valid() && |on| == |old(on)|
      ensures
        var p := old(rlr);
        && 0 <= p < |old(on)| == |old(run)| == |evwait| == |evflg| && old(g.rl) != [] && p == old(g.rl)[0]
        && if old(run)[p] || evwait[p] * evflg[p] != {}
           then on == old(on)[p := RLR] && g == old(g).(rl := old(g.rl)[1..] + [p])
           else on == old(on)[p := NRL] && g == old(g).(rl := old(g.rl)[1..], nl := [p] + old(g.nl))
      ensures run == if old(Stays()) then old(run)[old(rlr) := true] else old(run)
      ensures old(rlr) !in old(g.rl)[1..]
      ensures Woken(Asleep(old(on), old(run), old(rlr)), evflg, on, evflg, evwait)
    {
      hide Holds;
      ListFacts(plink, rlr, g.rl, on, RLR);
      TakeFirst(plink, rlr, drl, nrl, g, on);
      var p := rlr;
      rlr := plink[p];
      g := g.(rl := g.rl[1..]);
      on := on[p := FREE];
      if run[p] || evwait[p] * evflg[p] != {} {
        DispAct(p);
      } else {
        MakeSleep(plink, rlr, drl, nrl, g, on, p);
        plink := plink[p := nrl];
        nrl := p;
        g := g.(nl := [p] + g.nl);
        on := on[p := NRL];
      }
    }

    // The fork processes of one poll enter the ring, as many as it has room for.
    method Poll(fs: seq<Fork>)
      requires Ring()
      modifies this`fpdx, this`fpt, this`fpcnt
      ensures Ring() && |fpdx| == |old(fpdx)|
      ensures Waiting() == old(Waiting()) + FirstOf(fs, |fpdx| - old(fpcnt))
    {
      ghost var w := Waiting();
      assert w + fs[..0] == w;
      for i := 0 to |fs|
        invariant Ring() && |fpdx| == |old(fpdx)|
        invariant Waiting() == w + FirstOf(fs[..i], |fpdx| - |w|)
      {
        var _ := Forkq(fs[i]);
        FirstMore(w, fs, i, |fpdx| - |w|);
      }
      assert fs[..|fs|] == fs;
    }

    /** mwait: the current process waits for any of the events; it sleeps only if none of them has completed. */
    method Mwait(want: set<int>, polls: seq<seq<Fork>>) returns (ghost n: nat)
      requires Valid() && rlr != NIL
      modifies this
      ensures Valid() && |on| == |old(on)| && |fpdx| == |old(fpdx)|
      ensures 0 <= old(rlr) < |old(evwait)| == |old(evflg)| == |old(on)| && evwait == old(evwait)[old(rlr) := want]
      ensures want * old(evflg)[old(rlr)] != {} ==>
        on == old(on) && g == old(g) && evflg == old(evflg) && rlr == old(rlr) && Waiting() ==
          old(Waiting()) && run == old(run)
      ensures want * old(evflg)[old(rlr)] == {} ==>
        && Woken(old(on)[old(rlr) := NRL], old(evflg), on, evflg, evwait)
        && old(g.rl) != [] && old(g.rl)[1..] <= g.rl && g.dl == [] && fpcnt == 0 && |run| == |old(run)| == |on|
        && (forall p :: 0 <= p < |on| ==>
          (run[p] <==> (p != old(rlr) && old(run)[p]) || (p in g.rl && p !in old(g.rl)[1..])))
        && n <= |polls| && evflg == Flags(old(evflg), old(Waiting()) + Accepted(polls[..n], |fpdx|))
        && (polls != [] ==> n > 0) && (n < |polls| ==> polls[n - 1] == [] && rlr != NIL)
        && Waited(polls, n - 1, old(on)[old(rlr) := NRL], old(evflg), evwait, old(Waiting()), |fpdx|)
    {
      hide Woken, Waited, Flags, Accepted;
      ListFacts(plink, rlr, g.rl, on, RLR);
      evwait := evwait[rlr := want];
      n := 0;
      if want * evflg[rlr] == {} {
        run := run[rlr := false];
        n := Disp(polls);
      }
    }
  }

  // What disp started from: the lists of the processes, the completed bits, the ready ones, what is waited for, PS_RUN.
  datatype Past = Past(on: seq<int>, flg: seq<set<int>>, rest: seq<int>, wait: seq<set<int>>, run: seq<bool>)

  // Every process sleeps, and nothing it waits for has come.
  ghost predicate SleepsOn(on: seq<int>, evwait: seq<set<int>>, flg: seq<set<int>>) {
    |on| == |evwait| == |flg| && forall p :: 0 <= p < |on| ==> on[p] == NRL && evwait[p] * flg[p] == {}
  }

  // After poll k there is reason for another one: it brought a fork process, or all are asleep.
  ghost predicate Again(polls: seq<seq<Fork>>, k: int, on: seq<int>, flg: seq<set<int>>, evwait: seq<set<int>>,
                        w: seq<Fork>, size: nat)
  {
    && 0 < k <= |polls|
    && (polls[k - 1] != [] || SleepsOn(on, evwait, Flags(flg, w + Accepted(polls[..k], size))))
  }

  ghost predicate Waited(polls: seq<seq<Fork>>, n: int, on: seq<int>, flg: seq<set<int>>, evwait: seq<set<int>>,
                         w: seq<Fork>, size: nat)
  {
    forall k :: 0 < k <= n ==> Again(polls, k, on, flg, evwait, w, size)
  }

  lemma WaitedNone(polls: seq<seq<Fork>>, was: Past, w: seq<Fork>, size: nat)
    ensures Waited(polls, 0, was.on, was.flg, was.wait, w, size)
  {
  }

  lemma WaitedLess(polls: seq<seq<Fork>>, n: int, was: Past, w: seq<Fork>, size: nat)
    requires Waited(polls, n, was.on, was.flg, was.wait, w, size)
    ensures Waited(polls, n - 1, was.on, was.flg, was.wait, w, size)
  {
  }

  lemma WaitedMore(polls: seq<seq<Fork>>, n: nat, was: Past, w: seq<Fork>, size: nat)
    requires Waited(polls, n - 1, was.on, was.flg, was.wait, w, size)
    requires Again(polls, n, was.on, was.flg, was.wait, w, size)
    ensures Waited(polls, n, was.on, was.flg, was.wait, w, size)
  {
  }

  lemma PollMore(w: seq<Fork>, polls: seq<seq<Fork>>, n: nat, size: nat)
    requires n < |polls|
    ensures w + Accepted(polls[..n], size) + FirstOf(polls[n], size) == w + Accepted(polls[..n + 1], size)
  {
    AcceptedMore(polls, n, size);
  }

  lemma FlagsNone(flg: seq<set<int>>)
    ensures Flags(flg, []) == flg
  {
  }

  // The n entries of a ring from its head on.
  function InRing(ring: seq<Fork>, head: int, n: int): (q: seq<Fork>)
    requires 0 <= head < |ring| && 0 <= n <= |ring|
    ensures |q| == n
  {
    seq(n, i requires 0 <= i < n => ring[if head + i < |ring| then head + i else head + i - |ring|])
  }

  lemma RingPut(ring: seq<Fork>, head: int, n: int, f: Fork)
    requires 0 <= head < |ring| && 0 <= n < |ring|
    ensures
      var tail := if head + n < |ring| then head + n else head + n - |ring|;
      InRing(ring[tail := f], head, n + 1) == InRing(ring, head, n) + [f]
  {
  }

  lemma RingGet(ring: seq<Fork>, head: int, n: int)
    requires 0 <= head < |ring| && 0 <= n < |ring|
    ensures InRing(ring, head, n + 1)[0] == ring[head]
    ensures InRing(ring, if head + 1 == |ring| then 0 else head + 1, n) == InRing(ring, head, n + 1)[1..]
  {
  }

  // The first n of them, or all.
  function FirstOf(fs: seq<Fork>, n: int): (r: seq<Fork>)
    requires n >= 0
    ensures r == if |fs| <= n then fs else fs[..n]
  {
    if |fs| <= n then fs else fs[..n]
  }

  lemma FirstMore(w: seq<Fork>, fs: seq<Fork>, i: nat, n: nat)
    requires i < |fs|
    ensures
      w + FirstOf(fs[..i + 1], n) ==
      if |w + FirstOf(fs[..i], n)| < |w| + n then w + FirstOf(fs[..i], n) + [fs[i]] else w + FirstOf(fs[..i], n)
  {
    assert fs[..i + 1] == fs[..i] + [fs[i]];
    if n <= i {
      assert fs[..i + 1][..n] == fs[..i][..n];
    }
  }

  // The fork processes that polls bring into a ring of a size that is empty at each poll.
  function Accepted(polls: seq<seq<Fork>>, size: nat): seq<Fork> {
    if polls == [] then []
    else Accepted(polls[..|polls| - 1], size) + FirstOf(polls[|polls| - 1], size)
  }

  lemma AcceptedMore(polls: seq<seq<Fork>>, n: nat, size: nat)
    requires n < |polls|
    ensures Accepted(polls[..n + 1], size) == Accepted(polls[..n], size) + FirstOf(polls[n], size)
  {
    assert polls[..n + 1][..n] == polls[..n];
  }

  /** Every fork process of a poll that the ring has room for is accepted, and no other. */
  lemma {:induction false} AcceptedIff(polls: seq<seq<Fork>>, size: nat, f: Fork)
    ensures
      f in Accepted(polls, size)
      <==> exists i, j :: 0 <= i < |polls| && 0 <= j < |polls[i]| && j < size && polls[i][j] == f
    decreases |polls|
  {
    if polls != [] {
      var n := |polls| - 1;
      var most, last := polls[..n], FirstOf(polls[n], size);
      AcceptedIff(most, size, f);
      if f in Accepted(most, size) {
        var i, j :| 0 <= i < |most| && 0 <= j < |most[i]| && j < size && most[i][j] == f;
        assert polls[i][j] == f;
      }
      if f in last {
        var j :| 0 <= j < |last| && last[j] == f;
        assert polls[n][j] == f;
      }
      if exists i, j :: 0 <= i < |polls| && 0 <= j < |polls[i]| && j < size && polls[i][j] == f {
        var i, j :| 0 <= i < |polls| && 0 <= j < |polls[i]| && j < size && polls[i][j] == f;
        if i < n {
          assert most[i][j] == f;
        } else {
          assert last[j] == f;
        }
      }
    }
  }

  // The completed bits after a fork process; events of no process are ignored.
  function Raised(flg: seq<set<int>>, wakes: seq<(int, int)>): seq<set<int>>
    decreases |wakes|
  {
    if wakes == [] then flg
    else
      var (p, b) := wakes[0];
      Raised(if 0 <= p < |flg| then flg[p := flg[p] + {b}] else flg, wakes[1..])
  }

  function Flags(flg: seq<set<int>>, fs: seq<Fork>): seq<set<int>>
    decreases |fs|
  {
    if fs == [] then flg else Flags(Raised(flg, fs[0].wakes), fs[1..])
  }

  lemma {:induction false} RaisedIff(flg: seq<set<int>>, wakes: seq<(int, int)>, p: int, b: int)
    requires 0 <= p < |flg|
    ensures |Raised(flg, wakes)| == |flg|
    ensures b in Raised(flg, wakes)[p] <==> b in flg[p] || (p, b) in wakes
    decreases |wakes|
  {
    if wakes != [] {
      var (q, c) := wakes[0];
      RaisedIff(if 0 <= q < |flg| then flg[q := flg[q] + {c}] else flg, wakes[1..], p, b);
      assert wakes == [wakes[0]] + wakes[1..];
    }
  }

  /** A bit is set after some fork processes exactly if it was before, or one of them completes its event. */
  lemma {:induction false} FlagsIff(flg: seq<set<int>>, fs: seq<Fork>, p: int, b: int)
    requires 0 <= p < |flg|
    ensures |Flags(flg, fs)| == |flg|
    ensures b in Flags(flg, fs)[p] <==> b in flg[p] || exists i :: 0 <= i < |fs| && (p, b) in fs[i].wakes
    decreases |fs|
  {
    if fs != [] {
      RaisedIff(flg, fs[0].wakes, p, b);
      FlagsIff(Raised(flg, fs[0].wakes), fs[1..], p, b);
      assert fs == [fs[0]] + fs[1..];
      assert forall i :: 0 <= i < |fs| - 1 ==> fs[1..][i] == fs[i + 1];
      if i :| 0 <= i < |fs| && (p, b) in fs[i].wakes && i > 0 {
        assert fs[1..][i - 1] == fs[i];
      }
    }
  }

  lemma {:induction false} FlagsSplit(flg: seq<set<int>>, a: seq<Fork>, b: seq<Fork>)
    ensures Flags(flg, a + b) == Flags(Flags(flg, a), b)
    decreases |a|
  {
    if a == [] {
      assert a + b == b;
    } else {
      FlagsSplit(Raised(flg, a[0].wakes), a[1..], b);
      assert (a + b)[1..] == a[1..] + b;
    }
  }

  /**
   So a bit is set after disp exactly if it was before, or a fork process completes its event that was in the ring, or
   that came with a poll and found room.
   */
  lemma EventsIff(flg: seq<set<int>>, w: seq<Fork>, polls: seq<seq<Fork>>, size: nat, p: int, b: int)
    requires 0 <= p < |flg|
    ensures |Flags(flg, w + Accepted(polls, size))| == |flg|
    ensures
      b in Flags(flg, w + Accepted(polls, size))[p]
      <==>
      || b in flg[p] || (exists i :: 0 <= i < |w| && (p, b) in w[i].wakes)
      || exists i, j :: 0 <= i < |polls| && 0 <= j < |polls[i]| && j < size && (p, b) in polls[i][j].wakes
  {
    var fs := w + Accepted(polls, size);
    FlagsIff(flg, fs, p, b);
    hide Flags, Accepted;
    if i :| 0 <= i < |fs| && (p, b) in fs[i].wakes && i >= |w| {
      AcceptedIff(polls, size, fs[i]);
    }
    if i :| 0 <= i < |w| && (p, b) in w[i].wakes {
      assert fs[i] == w[i];
    }
    if i, j :| 0 <= i < |polls| && 0 <= j < |polls[i]| && j < size && (p, b) in polls[i][j].wakes {
      AcceptedIff(polls, size, polls[i][j]);
      var m :| 0 <= m < |Accepted(polls, size)| && Accepted(polls, size)[m] == polls[i][j];
      assert fs[|w| + m] == polls[i][j];
    }
  }
}
