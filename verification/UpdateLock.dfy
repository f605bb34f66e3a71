/** The nested lock that a window update takes (tak_flag, amutex, unsync of aes/gemflag.c, wm_update of newwmlib.c). */
module LockState {
  import opened Chains

  // No process.
  const NOBODY: int := 0

  // A process that waits with an event block.
  datatype Waiter = Waiter(e: int, pd: int)

  datatype Lock = Lock(
    tas: int,            // sy_tas
    owner: int,          // sy_owner
    wait: seq<Waiter>,   // sy_wait, first one first
    done: seq<int>,      // the completed event blocks, in this order
    depth: map<int, int> // by process: the updates begun and not ended
  )

  function Depth(l: Lock, pd: int): int {
    if pd in l.depth then l.depth[pd] else 0
  }

  predicate Waiting(l: Lock, pd: int) {
    exists i :: 0 <= i < |l.wait| && l.wait[i].pd == pd
  }

  // tak_flag for process pd: the new state and whether the lock was taken.
  function Taken(l: Lock, pd: int): (Lock, bool) {
    if l.owner != pd && l.tas + 1 != 1 then (l, false)
    else (l.(tas := l.tas + 1, owner := pd, depth := l.depth[pd := Depth(l, pd) + 1]), true)
  }

  // wm_update(BEG_UPDATE); e is the event block it waits with.
  function Begin(l: Lock, pd: int, e: int): Lock {
    var (l', ok) := Taken(l, pd);
    if ok then l' else l.(wait := [Waiter(e, pd)] + l.wait)
  }

  // wm_update(END_UPDATE) by process pd.
  function End(l: Lock, pd: int): Lock {
    if l.tas <= 0 then l
    else
      var l1 := l.(tas := l.tas - 1, depth := l.depth[pd := Depth(l, pd) - 1]);
      if l1.tas != 0 then l1
      else if l1.wait != [] then
        var w := l1.wait[0];
        l1.(tas := 1, owner := w.pd, wait := l1.wait[1..], done := l1.done + [w.e],
            depth := l1.depth[w.pd := Depth(l1, w.pd) + 1])
      else l1.(owner := NOBODY)
  }

  // ---- runs ----

  datatype Op = BegUpdate(pd: int, e: int) | EndUpdate(pd: int)

  // Waiting processes do not run, event blocks are not used twice, and only the owner ends an update.
  ghost predicate Allowed(l: Lock, op: Op) {
    && op.pd != NOBODY && !Waiting(l, op.pd)
    && match op
       case BegUpdate(pd, e) => e !in l.done && forall i :: 0 <= i < |l.wait| ==> l.wait[i].e != e
       case EndUpdate(pd) => l.tas > 0 ==> pd == l.owner
  }

  function Step(l: Lock, op: Op): Lock {
    match op
    case BegUpdate(pd, e) => Begin(l, pd, e)
    case EndUpdate(pd) => End(l, pd)
  }

  const FREE_LOCK := Lock(0, NOBODY, [], [], map[])

  function Run(ops: seq<Op>): Lock {
    if ops == [] then FREE_LOCK else Step(Run(ops[..|ops| - 1]), ops[|ops| - 1])
  }

  ghost predicate AllowedRun(ops: seq<Op>) {
    forall i :: 0 <= i < |ops| ==> Allowed(Run(ops[..i]), ops[i])
  }

  // sy_tas is the nesting depth of the owner, and nobody else is inside an update.
  ghost predicate Sound(l: Lock) {
    && l.tas >= 0
    && (l.tas == 0 <==> l.owner == NOBODY)
    && (l.tas == 0 ==> l.wait == [])
    && (forall pd :: pd != NOBODY ==> Depth(l, pd) == if pd == l.owner then l.tas else 0)
    && (forall i :: 0 <= i < |l.wait| ==> l.wait[i].pd != NOBODY && l.wait[i].pd != l.owner)
    && (forall i, j :: 0 <= i < j < |l.wait| ==> l.wait[i].pd != l.wait[j].pd && l.wait[i].e != l.wait[j].e)
    && Distinct(l.done)
    && (forall i :: 0 <= i < |l.wait| ==> l.wait[i].e !in l.done)
  }

  lemma StepSound(l: Lock, op: Op)
    requires Sound(l) && Allowed(l, op)
    ensures Sound(Step(l, op))
  {
    var l' := Step(l, op);
    forall pd | pd != NOBODY
      ensures Depth(l', pd) == if pd == l'.owner then l'.tas else 0
    {
      assert Depth(l, pd) == if pd == l.owner then l.tas else 0;
    }
    if op.BegUpdate? {
      assert forall i :: 0 < i < |l'.wait| && l'.wait != l.wait ==> l'.wait[i] == l.wait[i - 1];
    } else if l.tas == 1 && l.wait != [] {
      assert l'.wait == l.wait[1..];
    }
    if op.EndUpdate? && l.tas == 1 && l.wait != [] {
      assert forall i :: 0 <= i < |l'.wait| ==> l'.wait[i] == l.wait[i + 1];
      forall i, j | 0 <= i < j < |l'.done|
        ensures l'.done[i] != l'.done[j]
      {
        assert l.done[i] in l.done;
      }
    }
  }

  /** After every run the lock is sound. */
  lemma {:induction false} RunSound(ops: seq<Op>)
    requires AllowedRun(ops)
    ensures Sound(Run(ops))
    decreases |ops|
  {
    if ops != [] {
      var most := ops[..|ops| - 1];
      assert forall i :: 0 <= i <= |most| ==> most[..i] == ops[..i];
      RunSound(most);
      StepSound(Run(most), ops[|ops| - 1]);
    }
  }

  /** Two processes are never inside an update at the same time. */
  lemma Exclusive(ops: seq<Op>, a: int, b: int)
    requires AllowedRun(ops) && a != NOBODY && b != NOBODY
    requires Depth(Run(ops), a) > 0 && Depth(Run(ops), b) > 0
    ensures a == b
  {
    RunSound(ops);
  }

  /**
   The owner's last END_UPDATE hands the lock to the most recent waiter, at depth 1, and completes its event; no
   other step completes an event.
   */
  lemma HandOver(ops: seq<Op>, op: Op)
    requires AllowedRun(ops + [op])
    ensures
      var l, l' := Run(ops), Run(ops + [op]);
      if op.EndUpdate? && l.tas == 1 && l.wait != [] then
        && l'.owner == l.wait[0].pd && l'.tas == 1 && Depth(l', l.wait[0].pd) == 1 && Depth(l', op.pd) == 0
        && l'.done == l.done + [l.wait[0].e] && l'.wait == l.wait[1..]
      else l'.done == l.done && (op.EndUpdate? && l.tas == 1 ==> l'.owner == NOBODY)
  {
    assert (ops + [op])[..|ops|] == ops;
    assert forall i :: 0 <= i <= |ops| ==> (ops + [op])[..i] == ops[..i];
    RunSound(ops + [op]);
    RunSound(ops);
  }

  // The owner ends n updates.
  function Ends(l: Lock, pd: int, n: nat): Lock
    decreases n
  {
    if n == 0 then l else Ends(End(l, pd), pd, n - 1)
  }

  /** A process that asks while others wait is served before them, when the owner has ended all its updates. */
  lemma LastComesFirst(l: Lock, pd: int, e: int)
    requires Sound(l) && Allowed(l, BegUpdate(pd, e)) && l.tas > 0 && l.owner != pd
    ensures Ends(Begin(l, pd, e), l.owner, l.tas).owner == pd
    ensures Ends(Begin(l, pd, e), l.owner, l.tas).wait == l.wait
  {
    AllEnded(Begin(l, pd, e));
  }

  lemma {:induction false} AllEnded(l: Lock)
    requires l.tas > 0 && l.wait != []
    ensures Ends(l, l.owner, l.tas).owner == l.wait[0].pd && Ends(l, l.owner, l.tas).wait == l.wait[1..]
    decreases l.tas
  {
    if l.tas > 1 {
      AllEnded(End(l, l.owner));
    }
  }

  /** Ending an update keeps the lock sound exactly when no other process holds it: unsync does not look who calls. */
  lemma EndSoundIff(l: Lock, pd: int)
    requires Sound(l) && pd != NOBODY && !Waiting(l, pd)
    ensures Sound(End(l, pd)) <==> l.tas == 0 || pd == l.owner
  {
    if l.tas == 0 || pd == l.owner {
      StepSound(l, EndUpdate(pd));
    } else {
      var l' := End(l, pd);
      assert Depth(l', pd) == -1;
    }
  }
}

module UpdateLock {
  import opened Chains
  import opened LockState

  class SyncBlock {
    var tas: int
    var owner: int
    var wait: seq<Waiter>
    ghost var done: seq<int>
    ghost var depth: map<int, int>

    constructor ()
      ensures Now() == FREE_LOCK
    {
      tas, owner, wait, done, depth := 0, NOBODY, [], [], map[];
    }

    ghost function Now(): Lock
      reads this
    {
      Lock(tas, owner, wait, done, depth)
    }

    /** Takes the lock unless another process has it. */
    method TakFlag(rlr: int) returns (ok: bool)
      modifies this
      ensures (Now(), ok) == Taken(old(Now()), rlr)
    {
      tas := tas + 1;
      if owner != rlr && tas != 1 {
        tas := tas - 1;
        return false;
      }
      owner := rlr;
      depth := depth[rlr := Depth(Now(), rlr) + 1];
      ok := true;
    }

    /** Waits for the lock, unless it is free. */
    method Amutex(rlr: int, e: int) returns (ready: bool)
      modifies this
      ensures ready == Taken(old(Now()), rlr).1
      ensures ready ==> Now() == Taken(old(Now()), rlr).0.(done := old(done) + [e])
      ensures !ready ==> Now() == old(Now()).(wait := [Waiter(e, rlr)] + old(wait))
    {
      ready := TakFlag(rlr);
      if ready {
        done := done + [e];
      } else {
        wait := [Waiter(e, rlr)] + wait;
      }
    }

    /** Gives the lock up once; the last time, to the process that waits, if any. */
    method Unsync(rlr: int) returns (woken: int)
      modifies this
      ensures Now() == End(old(Now()), rlr)
      ensures woken == if old(tas) == 1 && old(wait) != [] then old(wait)[0].e else NIL
    {
      woken := NIL;
      if tas > 0 {
        tas := tas - 1;
        depth := depth[rlr := Depth(Now(), rlr) - 1];
        if tas == 0 {
          if wait != [] {
            var p := wait[0];
            wait := wait[1..];
            owner := p.pd;
            tas := 1;
            depth := depth[p.pd := Depth(Now(), p.pd) + 1];
            done := done + [p.e];
            woken := p.e;
          } else {
            owner := NOBODY;
          }
        }
      }
    }

    /** wm_update: begins or ends an update; e is the event block in case it has to wait. */
    method WmUpdate(code: bool, rlr: int, e: int)
      modifies this
      ensures Now() == Step(old(Now()), if code then BegUpdate(rlr, e) else EndUpdate(rlr))
    {
      if code {
        var ok := TakFlag(rlr);
        if !ok {
          var _ := Amutex(rlr, e);
        }
      } else {
        var _ := Unsync(rlr);
      }
    }
  }
}
