/** Timer events: each entry holds the ticks to wait after the entry before it (aes/gemasync.c, aes/gemflag.c). */
module DelayTimes {
  import opened Chains
  import opened Geometry

  function Sum(d: seq<int>): int {
    if d == [] then 0 else Sum(d[..|d| - 1]) + d[|d| - 1]
  }

  // The deadline of entry i: the sum of the entries up to it.
  function Due(d: seq<int>, i: nat): int
    requires i < |d|
  {
    Sum(d[..i + 1])
  }

  ghost predicate NonNegative(d: seq<int>) {
    forall i :: 0 <= i < |d| ==> d[i] >= 0
  }

  lemma DueStep(d: seq<int>, i: nat)
    requires i < |d|
    ensures Due(d, i) == Sum(d[..i]) + d[i]
  {
    assert d[..i + 1][..i] == d[..i];
  }

  lemma {:induction false} SumSplit(a: seq<int>, b: seq<int>)
    ensures Sum(a + b) == Sum(a) + Sum(b)
    decreases |b|
  {
    if b == [] {
      assert a + b == a;
    } else {
      SumSplit(a, b[..|b| - 1]);
      assert (a + b)[..|a + b| - 1] == a + b[..|b| - 1];
    }
  }

  lemma {:induction false} SumGrows(d: seq<int>, i: nat, j: nat)
    requires NonNegative(d) && i <= j <= |d|
    ensures 0 <= Sum(d[..i]) <= Sum(d[..j])
    decreases j
  {
    if j > 0 {
      DueStep(d, j - 1);
      if i < j {
        SumGrows(d, i, j - 1);
      } else {
        SumGrows(d, i - 1, j - 1);
      }
    } else {
      assert d[..0] == [];
    }
  }

  // A new entry for deadline a before position k; the entry behind it waits that much less.
  function InsertDelta(d: seq<int>, k: nat, a: int): seq<int>
    requires k <= |d|
  {
    var own := a - Sum(d[..k]);
    Inserted(if k < |d| then d[k := d[k] - own] else d, k, own)
  }

  /** The new event is due at a, all others when they were before. */
  lemma InsertDue(d: seq<int>, k: nat, a: int, i: nat)
    requires k <= |d| && i <= |d|
    ensures |InsertDelta(d, k, a)| == |d| + 1
    ensures Due(InsertDelta(d, k, a), i) == if i < k then Due(d, i) else if i == k then a else Due(d, i - 1)
  {
    var own := a - Sum(d[..k]);
    var d' := InsertDelta(d, k, a);
    Singles(own, if k < |d| then d[k] - own else 0, if k < |d| then d[k] else 0);
    hide Sum;
    if i < k {
      assert d'[..i + 1] == d[..i + 1];
    } else if i == k {
      assert d'[..k + 1] == d[..k] + [own];
      SumSplit(d[..k], [own]);
    } else {
      var behind := d[k + 1..i];
      assert d[..i] == d[..k] + [d[k]] + behind;
      assert d'[..i + 1] == d[..k] + [own] + [d[k] - own] + behind;
      SumSplit(d[..k] + [own] + [d[k] - own], behind);
      SumSplit(d[..k] + [own], [d[k] - own]);
      SumSplit(d[..k], [own]);
      SumSplit(d[..k] + [d[k]], behind);
      SumSplit(d[..k], [d[k]]);
    }
  }

  lemma InsertNonNegative(d: seq<int>, k: nat, a: int)
    requires NonNegative(d) && k <= |d| && a >= Sum(d[..k]) && (k < |d| ==> a - Sum(d[..k]) <= d[k])
    ensures NonNegative(InsertDelta(d, k, a))
  {
  }

  lemma Singles(a: int, b: int, c: int)
    ensures Sum([a]) == a && Sum([b]) == b && Sum([c]) == c
  {
    assert [a][..0] == [] && [b][..0] == [] && [c][..0] == [];
  }

  // Entry k gone; the entry behind it waits that much more.
  function RemoveDelta(d: seq<int>, k: nat): seq<int>
    requires k < |d|
  {
    Without(if k + 1 < |d| then d[k + 1 := d[k + 1] + d[k]] else d, k)
  }

  /** Cancelling an event leaves the deadlines of all others. */
  lemma RemoveDue(d: seq<int>, k: nat, i: nat)
    requires k < |d| && i + 1 < |d|
    ensures |RemoveDelta(d, k)| == |d| - 1
    ensures Due(RemoveDelta(d, k), i) == Due(d, if i < k then i else i + 1)
  {
    var d' := RemoveDelta(d, k);
    if i < k {
      assert d'[..i + 1] == d[..i + 1];
    } else {
      assert d'[..i + 1] == d[..k] + [d[k + 1] + d[k]] + d[k + 2..i + 2];
      assert d[..i + 2] == d[..k] + [d[k]] + [d[k + 1]] + d[k + 2..i + 2];
      SumSplit(d[..k] + [d[k + 1] + d[k]], d[k + 2..i + 2]);
      SumSplit(d[..k], [d[k + 1] + d[k]]);
      SumSplit(d[..k] + [d[k]] + [d[k + 1]], d[k + 2..i + 2]);
      SumSplit(d[..k] + [d[k]], [d[k + 1]]);
      SumSplit(d[..k], [d[k]]);
      Singles(d[k], d[k + 1], d[k + 1] + d[k]);
    }
  }

  lemma RemoveNonNegative(d: seq<int>, k: nat)
    requires NonNegative(d) && k < |d|
    ensures NonNegative(RemoveDelta(d, k))
  {
    var d' := RemoveDelta(d, k);
    forall j | 0 <= j < |d'|
      ensures d'[j] >= 0
    {
      var e := if k + 1 < |d| then d[k + 1 := d[k + 1] + d[k]] else d;
      assert Without(e, k)[j] == e[if j < k then j else j + 1];
    }
  }

  // How many entries are due within c ticks; they are the first ones.
  function Expired(d: seq<int>, c: int): (k: nat)
    ensures k <= |d|
    decreases |d|
  {
    if d != [] && d[0] <= c then 1 + Expired(d[1..], c - d[0]) else 0
  }

  // What c ticks leave of the entries.
  function Passed(d: seq<int>, c: int): (r: seq<int>)
    ensures |r| == |d| - Expired(d, c)
    decreases |d|
  {
    if d == [] then [] else if d[0] <= c then Passed(d[1..], c - d[0]) else d[0 := d[0] - c]
  }

  lemma DueTail(d: seq<int>, i: nat)
    requires i < |d|
    ensures i > 0 ==> Due(d, i) == d[0] + Due(d[1..], i - 1)
    ensures i == 0 ==> Due(d, i) == d[0]
  {
    if i > 0 {
      assert d[..i + 1] == [d[0]] + d[1..][..i];
      SumSplit([d[0]], d[1..][..i]);
      Singles(d[0], d[0], d[0]);
    } else {
      assert d[..1] == [d[0]];
      Singles(d[0], d[0], d[0]);
    }
  }

  /** Exactly the events due within c ticks expire; every other deadline comes c nearer and stays ahead. */
  lemma {:induction false} PassedDue(d: seq<int>, c: int, i: nat)
    requires NonNegative(d) && i < |d|
    ensures i < Expired(d, c) <==> Due(d, i) <= c
    ensures i >= Expired(d, c) ==> Due(Passed(d, c), i - Expired(d, c)) == Due(d, i) - c
    ensures NonNegative(Passed(d, c))
    decreases |d|
  {
    DueTail(d, i);
    SumGrows(d, 1, i + 1);
    assert d[..1] == [d[0]];
    Singles(d[0], 0, 0);
    if d[0] <= c {
      if i > 0 {
        PassedDue(d[1..], c - d[0], i - 1);
      } else {
        PassedNonNegative(d[1..], c - d[0]);
      }
    } else {
      var r := Passed(d, c);
      DueTail(r, i);
      assert r[1..] == d[1..];
    }
  }

  lemma {:induction false} PassedNonNegative(d: seq<int>, c: int)
    requires NonNegative(d)
    ensures NonNegative(Passed(d, c))
    ensures Passed(d, c) != [] ==> Passed(d, c)[0] > 0
    decreases |d|
  {
    if d != [] && d[0] <= c {
      PassedNonNegative(d[1..], c - d[0]);
    }
  }

  lemma PassedStep(d: seq<int>, c: int)
    requires d != [] && NonNegative(d)
    ensures d[0] <= c ==> Expired(d, c) == 1 + Expired(d[1..], c - d[0]) && Passed(d, c) == Passed(d[1..], c - d[0])
    ensures d[0] > c ==> Expired(d, c) == 0 && Passed(d, c) == d[0 := d[0] - c]
    ensures NonNegative(d[0 := 0]) && (d[0] > c ==> NonNegative(d[0 := d[0] - c])) && d[0] >= 0
  {
  }

  lemma PassedNone(c: int)
    ensures Expired([], c) == 0 && Passed([], c) == []
  {
  }

  // ---- the clock ----

  // The entries, the ticks until tchange is called, and those counted so far.
  datatype Timer = Timer(d: seq<int>, cmp: int, num: int)

  // What tchange(c) does.
  function Changed(t: Timer, c: int): Timer {
    var d := Passed(t.d, c);
    if d == [] then Timer(d, t.cmp, t.num) else Timer(d, d[0], 0)
  }

  // One tick of the clock; tchange follows when the count is reached.
  function Ticked(t: Timer): (r: Timer)
    ensures |r.d| <= |t.d|
  {
    if t.cmp == 0 then t
    else if t.cmp == 1 then Changed(t.(cmp := 0, num := t.num + 1), t.num + 1)
    else t.(cmp := t.cmp - 1, num := t.num + 1)
  }

  // How many events n ticks complete.
  function Fired(t: Timer, n: nat): nat
    decreases n
  {
    if n == 0 then 0 else |t.d| - |Ticked(t).d| + Fired(Ticked(t), n - 1)
  }

  lemma TickedCounting(t: Timer)
    requires t.cmp > 0 && t.num >= 0 && NonNegative(t.d)
    ensures |Ticked(t).d| <= |t.d| && Ticked(t).num >= 0 && NonNegative(Ticked(t).d)
    ensures Ticked(t).d != [] ==> Ticked(t).cmp > 0
  {
    PassedNonNegative(t.d, t.num + 1);
  }

  /**
   When event i completes: not before the count is reached, and else when its deadline has passed, counted from the
   tick at which NUM_TICK started.
   */
  lemma {:induction false} FiresAfter(t: Timer, i: nat, n: nat)
    requires t.cmp > 0 && t.num >= 0 && NonNegative(t.d) && i < |t.d|
    ensures Fired(t, n) > i <==> n >= Max(t.cmp, Due(t.d, i) - t.num)
    decreases n
  {
    TickedCounting(t);
    if n == 0 {
      return;
    }
    var t' := Ticked(t);
    if t.cmp > 1 {
      FiresAfter(t', i, n - 1);
    } else {
      var k := Expired(t.d, t.num + 1);
      CountReached(t, i);
      if i >= k {
        FiresAfter(t', i - k, n - 1);
      }
    }
  }

  // The tick that reaches the count: events past their deadlines complete, the others have that much less to wait.
  lemma CountReached(t: Timer, i: nat)
    requires t.cmp == 1 && t.num >= 0 && NonNegative(t.d) && i < |t.d|
    ensures
      var k, t' := Expired(t.d, t.num + 1), Ticked(t);
      && |t.d| - |t'.d| == k && (i < k <==> Due(t.d, i) <= t.num + 1)
      && (i >= k ==> Due(t'.d, i - k) == Due(t.d, i) - (t.num + 1) && t'.num == 0 && t'.cmp <= Due(t'.d, i - k))
  {
    var k, t' := Expired(t.d, t.num + 1), Ticked(t);
    PassedDue(t.d, t.num + 1, i);
    if i >= k {
      SumGrows(t'.d, 1, i - k + 1);
      DueTail(t'.d, 0);
    }
  }

  /**
   The tick that completes everything stops the clock: whatever is started next, it completes after exactly the ticks it
   asks for.
   */
  lemma StoppedWhenDone(t: Timer, a: int, n: nat)
    requires t.cmp == 1 && t.num >= 0 && NonNegative(t.d) && Ticked(t).d == [] && a > 0
    ensures Ticked(t).cmp == 0
    ensures Fired(Started(Ticked(t), 0, a), n) > 0 <==> n >= a
  {
    var t1 := Ticked(t);
    var t' := Started(t1, 0, a);
    InsertDue(t1.d, 0, a, 0);
    assert t1.d[..0] == [];
    InsertNonNegative(t1.d, 0, a);
    FiresAfter(t', 0, n);
  }

  // Inserting an event for a ticks.
  function Started(t: Timer, k: nat, a: int): Timer
    requires k <= |t.d|
  {
    Timer(InsertDelta(t.d, k, a), if t.cmp == 0 then a else Min(a, t.cmp), if t.cmp == 0 then 0 else t.num)
  }

  // Position k is where an event for a ticks is inserted: in front of the first one due no earlier.
  predicate Fits(d: seq<int>, k: nat, a: int) {
    k <= |d| && (k > 0 ==> Due(d, k - 1) < a) && (k < |d| ==> Due(d, k) >= a)
  }

  // While the clock can still reach zero, nothing on the list is overdue.
  ghost predicate Counting(t: Timer) { t.num >= 0 && (t.cmp >= 0 ==> NonNegative(t.d)) }

  // Counting from the last call of tchange, which the first event is measured from.
  predicate Synced(t: Timer) { t.d != [] ==> t.cmp > 0 && t.num >= 0 && t.cmp + t.num == t.d[0] }

  lemma StartedNonNegative(t: Timer, k: nat, a: int)
    requires NonNegative(t.d) && Fits(t.d, k, a)
    ensures NonNegative(InsertDelta(t.d, k, a)) <==> a >= 0
    ensures a > 0 && t.cmp >= 0 && t.num >= 0 ==> Started(t, k, a).cmp > 0 && Started(t, k, a).num >= 0
  {
    SumGrows(t.d, k, k);
    if k > 0 {
      assert Due(t.d, k - 1) == Sum(t.d[..k]);
    } else {
      assert t.d[..0] == [];
    }
    if k < |t.d| {
      DueStep(t.d, k);
    }
    if a >= 0 {
      InsertNonNegative(t.d, k, a);
    } else {
      assert InsertDelta(t.d, k, a)[k] == a - Sum(t.d[..k]) < 0;
    }
  }

  /** When an event that was just started completes, if it asks for one tick or more. */
  lemma StartedFires(t: Timer, k: nat, a: int, n: nat)
    requires t.cmp >= 0 && Counting(t) && a > 0 && Fits(t.d, k, a)
    ensures
      var t' := Started(t, k, a);
      Fired(t', n) > k <==> n >= Max(t'.cmp, a - t'.num)
  {
    hide Due, InsertDelta, NonNegative, Fired, Sum;
    StartedNonNegative(t, k, a);
    InsertDue(t.d, k, a, k);
    FiresAfter(Started(t, k, a), k, n);
  }

  /**
   An event completes after exactly the ticks it asks for if and only if these are more than none, no event before it
   asked for less than none, and it is started when no ticks are counted, or is due before the next count.
   */
  lemma OnTimeIff(t: Timer, k: nat, a: int)
    requires Counting(t) && a != 0 && Fits(t.d, k, a)
    ensures
      (forall n: nat :: Fired(Started(t, k, a), n) > k <==> n >= a)
      <==> a > 0 && t.cmp >= 0 && (t.cmp == 0 || t.num == 0 || a <= t.cmp)
  {
    hide Due, InsertDelta, NonNegative, Fired, Sum;
    var t' := Started(t, k, a);
    if a < 0 || t.cmp < 0 {
      var n: nat := Max(a, 0);
      NoneFires(t', n);
      assert !(Fired(t', n) > k <==> n >= a);
      return;
    }
    var w := Max(t'.cmp, a - t'.num);
    forall n: nat
      ensures Fired(t', n) > k <==> n >= w
    {
      StartedFires(t, k, a, n);
    }
    if w != a {
      assert w < a;
      assert Fired(t', w) > k;
    }
  }

  /**
   An event already waiting completes when it would have, if and only if the new one is not due before the next count or
   the waiting one is not due before it either; an event that asks for less than no ticks stops all others.
   */
  lemma OthersOnTimeIff(t: Timer, k: nat, a: int, i: nat)
    requires Counting(t) && a != 0 && Fits(t.d, k, a) && i < |t.d|
    ensures
      var j := if i < k then i else i + 1;
      (forall n: nat :: Fired(Started(t, k, a), n) > j <==> Fired(t, n) > i)
      <==>
      if t.cmp > 0 then a > 0 && (a >= t.cmp || Due(t.d, i) >= t.cmp + t.num) else t.cmp < 0 || a < 0
  {
    hide Due, InsertDelta, NonNegative, Fired, Sum;
    var j, t' := if i < k then i else i + 1, Started(t, k, a);
    InsertDue(t.d, k, a, j);
    if t'.cmp < 0 {
      forall n: nat
        ensures Fired(t', n) == 0
        ensures t.cmp <= 0 ==> Fired(t, n) == 0
      {
        NoneFires(t', n);
        if t.cmp <= 0 {
          NoneFires(t, n);
        }
      }
      if t.cmp > 0 {
        var n: nat := Max(t.cmp, Due(t.d, i) - t.num);
        FiresAfter(t, i, n);
        assert !(Fired(t', n) > j <==> Fired(t, n) > i);
      }
      return;
    }
    StartedNonNegative(t, k, a);
    var w' := Max(t'.cmp, Due(t.d, i) - t'.num);
    forall n: nat
      ensures Fired(t', n) > j <==> n >= w'
    {
      FiresAfter(t', j, n);
    }
    if t.cmp == 0 {
      var n: nat := w';
      NoneFires(t, n);
      assert !(Fired(t', n) > j <==> Fired(t, n) > i);
      return;
    }
    var w := Max(t.cmp, Due(t.d, i) - t.num);
    forall n: nat
      ensures Fired(t, n) > i <==> n >= w
    {
      FiresAfter(t, i, n);
    }
    if w' != w {
      var n: nat := w';
      assert n < w;
      assert !(Fired(t', n) > j <==> Fired(t, n) > i);
    }
  }

  /** While the count is measured from the first entry, only an event for less than no ticks disturbs the others. */
  lemma OthersOnTime(t: Timer, k: nat, a: int, i: nat)
    requires Synced(t) && Counting(t) && a != 0 && Fits(t.d, k, a) && i < |t.d|
    ensures
      (forall n: nat :: Fired(Started(t, k, a), n) > (if i < k then i else i + 1) <==> Fired(t, n) > i) <==> a > 0
  {
    SumGrows(t.d, 1, i + 1);
    DueTail(t.d, 0);
    OthersOnTimeIff(t, k, a, i);
  }

  // ---- a count below zero ----

  // No tick completes anything: the clock counts away from zero.
  lemma {:induction false} NoneFires(t: Timer, n: nat)
    requires t.cmp <= 0
    ensures Fired(t, n) == 0
    decreases n
  {
    if n > 0 {
      NoneFires(Ticked(t), n - 1);
    }
  }

  // What happens to the timers: a tick, an event started at position k, the event at position k cancelled.
  datatype Step = Tick | Start(k: nat, a: int) | Cancel(k: nat)

  function Stepped(t: Timer, s: Step): Timer {
    match s
    case Tick => Ticked(t)
    case Start(k, a) => if k <= |t.d| && a != 0 then Started(t, k, a) else t
    case Cancel(k) => if k < |t.d| then t.(d := RemoveDelta(t.d, k)) else t
  }

  // How many events complete over a run.
  function Completed(t: Timer, run: seq<Step>): nat
    decreases |run|
  {
    if run == [] then 0
    else (if run[0] == Tick then |t.d| - |Ticked(t).d| else 0) + Completed(Stepped(t, run[0]), run[1..])
  }

  lemma {:induction false} NoneCompletes(t: Timer, run: seq<Step>)
    requires t.cmp < 0
    ensures Completed(t, run) == 0
    decreases |run|
  {
    if run != [] {
      NoneCompletes(Stepped(t, run[0]), run[1..]);
    }
  }

  /** Until then nothing on the list is ever overdue. */
  lemma CountingKept(t: Timer, s: Step)
    requires Counting(t) && (s.Start? && s.a != 0 ==> Fits(t.d, s.k, s.a))
    ensures Counting(Stepped(t, s))
  {
    hide Fits, InsertDelta, RemoveDelta, Passed;
    match s
    case Tick =>
      if t.cmp > 0 {
        TickedCounting(t);
      }
    case Start(k, a) =>
      if k <= |t.d| && a != 0 && t.cmp >= 0 {
        StartedNonNegative(t, k, a);
      }
    case Cancel(k) =>
      if k < |t.d| && t.cmp >= 0 {
        RemoveNonNegative(t.d, k);
      }
  }

  lemma {:induction false} OnlyTicks(t: Timer, n: nat)
    ensures Completed(t, seq(n, _ => Tick)) == Fired(t, n)
    decreases n
  {
    if n > 0 {
      var run := seq(n, _ => Tick);
      assert run[0] == Tick && run[1..] == seq(n - 1, _ => Tick);
      OnlyTicks(Ticked(t), n - 1);
    }
  }

  /**
   An event started for less than no ticks stops the timers for good: whatever is started, cancelled or waited for from
   then on, no event of any process completes, not even when this one is cancelled. No other event does that.
   */
  lemma StopsIff(t: Timer, k: nat, a: int)
    requires t.cmp >= 0 && Counting(t) && a != 0 && Fits(t.d, k, a)
    ensures a < 0 <==> forall run :: Completed(Started(t, k, a), run) == 0
    ensures a > 0 <==> exists n: nat :: Fired(Started(t, k, a), n) > k
  {
    hide Due, InsertDelta, NonNegative, Fired, Sum, Completed;
    var t' := Started(t, k, a);
    if a < 0 {
      forall run
        ensures Completed(t', run) == 0
      {
        NoneCompletes(t', run);
      }
      forall n: nat
        ensures Fired(t', n) == 0
      {
        NoneFires(t', n);
      }
    } else {
      var n: nat := Max(t'.cmp, a - t'.num);
      StartedFires(t, k, a, n);
      OnlyTicks(t', n);
      assert Completed(t', seq(n, _ => Tick)) > 0;
    }
  }

  /**
   Six ticks into a wait for ten, an event is started for two ticks and another one for one: the first of them completes
   after one tick, as it would not have without the other.
   */
  lemma EarlyByLaterStart()
    ensures
      var t := Timer([10], 4, 6);
      var t1 := Started(t, 0, 2);
      var t2 := Started(t1, 0, 1);
      && Synced(t) && !Synced(t1)
      && Fired(t2, 1) > 1 && !(Fired(t1, 1) > 0)
  {
    hide Due, InsertDelta, Fired;
    StartedFirst(Timer([10], 4, 6), 2);
    StartedFirst(Timer([2, 8], 2, 6), 1);
    EarlyDues();
    assert [2, 8] + [10][1..] == [2, 8] && [1, 1] + [2, 8][1..] == [1, 1, 8];
    assert Started(Timer([10], 4, 6), 0, 2) == Timer([2, 8], 2, 6);
    assert Started(Timer([2, 8], 2, 6), 0, 1) == Timer([1, 1, 8], 1, 6);
    FiresAfter(Timer([1, 1, 8], 1, 6), 1, 1);
    FiresAfter(Timer([2, 8], 2, 6), 0, 1);
  }

  lemma StartedFirst(t: Timer, a: int)
    requires t.d != []
    ensures InsertDelta(t.d, 0, a) == [a, t.d[0] - a] + t.d[1..]
  {
  }

  lemma EarlyDues()
    ensures Due([1, 1, 8], 1) == 2 && Due([2, 8], 0) == 2
  {
    Singles(1, 2, 8);
    assert [1, 1, 8][..2] == [1, 1] && [1, 1][..1] == [1];
    assert [2, 8][..1] == [2];
  }

  /** Cancelling an event does not change when the others complete. */
  lemma CancelOnTime(t: Timer, k: nat, i: nat, n: nat)
    requires Counting(t) && k < |t.d| && i + 1 < |t.d|
    ensures Counting(t.(d := RemoveDelta(t.d, k)))
    ensures Fired(t.(d := RemoveDelta(t.d, k)), n) > i <==> Fired(t, n) > (if i < k then i else i + 1)
  {
    var t' := t.(d := RemoveDelta(t.d, k));
    RemoveDue(t.d, k, i);
    if t.cmp >= 0 {
      RemoveNonNegative(t.d, k);
    }
    if t.cmp <= 0 {
      NoneFires(t, n);
      NoneFires(t', n);
      return;
    }
    FiresAfter(t', i, n);
    FiresAfter(t, if i < k then i else i + 1, n);
  }
}

module DelayList {
  import opened Chains
  import opened Geometry
  import opened EventLists
  import opened DelayTimes

  // The entries of a list of blocks.
  function Deltas(parm: seq<int>, q: seq<int>): seq<int>
    requires InArena(q, |parm|)
  {
    seq(|q|, i requires 0 <= i < |q| => parm[q[i]])
  }

  class DelayQueue {
    var link: seq<int>   // e_link
    var pred: seq<int>   // e_pred
    var parm: seq<int>   // e_parm
    var dlr: int
    var cmpTick: int     // CMP_TICK
    var numTick: int     // NUM_TICK
    ghost var q: seq<int>      // the blocks that wait, first one first
    ghost var done: seq<int>   // the blocks completed, in this order

    // The waiting blocks are linked both ways.
    ghost predicate Listed()
      reads this
    {
      Both(link, pred, dlr, q) && |parm| == |link| && InArena(q, |parm|)
    }

    // And none of them is overdue.
    ghost predicate Valid()
      reads this
    {
      Listed() && NonNegative(Deltas(parm, q))
    }

    // Nothing waits, no ticks are counted.
    constructor (n: nat)
      ensures Valid() && q == [] && done == [] && cmpTick == 0 && |link| == n
    {
      link, pred, parm := seq(n, _ => NIL), seq(n, _ => NIL), seq(n, _ => 0);
      dlr, cmpTick, numTick := NIL, 0, 0;
      q, done := [], [];
    }

    ghost function D(): seq<int>
      requires InArena(q, |parm|)
      reads this
    {
      Deltas(parm, q)
    }

    // The place of a deadline in the list: the blocks before and behind, and the ticks left to wait after the first.
    method Place(a0: int) returns (ghost k: nat, prev: int, p: int, a: int)
      requires Listed()
      ensures k <= |q| && prev == Pred(q, k) && p == (if k < |q| then q[k] else NIL)
      ensures a == a0 - Sum(D()[..k]) && Fits(D(), k, a0)
      ensures (k > 0 ==> 0 <= prev < |link|) && (k < |q| ==> 0 <= p < |link|)
    {
      hide Both;
      Ends(link, pred, dlr, q);
      ghost var d := D();
      a, prev, p, k := a0, ROOT, dlr, 0;
      assert d[..0] == [];
      while p != NIL
        invariant k <= |q| && prev == Pred(q, k) && p == (if k < |q| then q[k] else NIL)
        invariant a == a0 - Sum(d[..k])
        invariant k > 0 ==> Due(d, k - 1) < a0 && 0 <= prev < |link|
        decreases |q| - k
      {
        At(k);
        DueStep(d, k);
        if a <= parm[p] {
          break;
        }
        a := a - parm[p];
        prev := p;
        p := link[p];
        k := k + 1;
      }
      if k < |q| {
        DueStep(d, k);
      }
    }

    lemma At(k: nat)
      requires Listed() && k < |q|
      ensures 0 <= q[k] < |link| && link[q[k]] == After(q, k, NIL) && pred[q[k]] == Pred(q, k) && D()[k] == parm[q[k]]
      ensures After(q, k, NIL) == NIL || 0 <= After(q, k, NIL) < |link|
      ensures k > 0 ==> 0 <= q[k - 1] < |link|
    {
      BothAt(link, pred, dlr, q, k);
    }

    /**
     ADELAY: puts event block e on the list, in front of the first one that is due no earlier. Nothing keeps a caller
     from asking for less than no ticks; then, and only then, the list has an overdue entry.
     */
    method Delay(e: int, aparm: int) returns (ghost k: nat)
      requires Listed() && 0 <= e < |link| && Apart(q, [e])
      modifies this
      ensures Listed() && k <= |old(q)| && q == Inserted(old(q), k, e) && done == old(done)
      ensures old(Valid()) ==> (Valid() <==> aparm >= 0)
      ensures var a := if aparm == 0 then 1 else aparm;
        && D() == InsertDelta(old(D()), k, a) && Fits(old(D()), k, a)
        && Timer(D(), cmpTick, numTick) == Started(Timer(old(D()), old(cmpTick), old(numTick)), k, a)
    {
      var a := aparm;
      if a == 0 {
        a := 1;
      }
      ghost var a0, d := a, D();
      if cmpTick != 0 {
        if a <= cmpTick {
          cmpTick := a;
        }
      } else {
        cmpTick := a;
        numTick := 0;
      }
      hide Both, InsertDelta, NonNegative, Fits;
      var prev, p, rest;
      k, prev, p, rest := Place(a);
      if NonNegative(d) {
        StartedNonNegative(Timer(d, cmpTick, numTick), k, a);
      }
      LinkTimer(e, prev, p, rest, k, a0);
    }

    // The writes that put a timer event between two blocks.
    method LinkTimer(e: int, prev: int, p: int, own: int, ghost k: nat, ghost a0: int)
      requires Listed() && 0 <= e < |link| && Apart(q, [e]) && k <= |q|
      requires prev == Pred(q, k) && p == (if k < |q| then q[k] else NIL)
      requires own == a0 - Sum(D()[..k])
      modifies this`link, this`pred, this`parm, this`dlr, this`q
      ensures Listed() && q == Inserted(old(q), k, e) && D() == InsertDelta(old(D()), k, a0)
    {
      hide Both, InsertDelta, NonNegative, InArena, Distinct, Apart, Deltas, Sum, Inserted;
      TimerLinked(link, pred, parm, dlr, q, k, e, own, a0);
      ghost var link0, pred0, parm0 := link, pred, parm;
      pred := pred[e := prev];
      if prev == ROOT {
        dlr := e;
      } else {
        link := link[prev := e];
      }
      parm := parm[e := own];
      link := link[e := p];
      if p != NIL {
        pred := pred[p := e];
        parm := parm[p := parm[p] - own];
      }
      assert link == LinkIn(link0, q, k, e) && pred == PredIn(pred0, q, k, e) && parm == ParmIn(parm0, q, k, e, own);
      q := Inserted(q, k, e);
    }

    /** takeoff on a waiting timer event, the block at position k. */
    method Takeoff(e: int, ghost k: nat)
      requires Listed() && k < |q| && q[k] == e
      modifies this
      ensures Listed() && (old(Valid()) ==> Valid()) && q == Without(old(q), k) && D() == RemoveDelta(old(D()), k)
      ensures done == old(done) && cmpTick == old(cmpTick) && numTick == old(numTick)
    {
      hide Both, NonNegative, RemoveDelta, InArena, Deltas, Without, Distinct;
      TimerUnlinked(link, pred, parm, dlr, q, k);
      ghost var link0, pred0, parm0 := link, pred, parm;
      if pred[e] == ROOT {
        dlr := link[e];
      } else {
        link := link[pred[e] := link[e]];
      }
      if link[e] != NIL {
        pred := pred[link[e] := pred[e]];
        parm := parm[link[e] := parm[link[e]] + parm[e]];
      }
      assert link == LinkOut(link0, q, k) && pred == PredOut(pred0, q, k) && parm == ParmOut(parm0, q, k);
      q := Without(q, k);
    }

    /** evremove on the first block, whose waiting time is over: it goes to the completed ones. */
    method Evremove(e: int)
      requires Valid() && q != [] && q[0] == e
      modifies this
      ensures Valid() && q == old(q[1..]) && done == old(done) + [e] && parm == old(parm)
      ensures cmpTick == old(cmpTick) && numTick == old(numTick)
    {
      hide Both;
      Ends(link, pred, dlr, q);
      BothAt(link, pred, dlr, q, 0);
      BothUnlink(link, pred, dlr, q, 0);
      assert Without(q, 0) == q[1..];
      DeltasTail(parm, q);
      hide InArena, NonNegative, Deltas;
      dlr := link[e];
      if link[e] != NIL {
        pred := pred[link[e] := pred[e]];
      }
      q := q[1..];
      done := done + [e];
    }

    // One turn of tchange's loop: the ticks come off the first entry; the event completes when nothing is left of it.
    method Bite(d: int, ticks: int) returns (over: bool, c: int)
      requires Valid() && ticks >= 0 && q != [] && q[0] == d
      modifies this
      ensures Valid() && dlr == Head(q, NIL) && over == (old(D())[0] <= ticks)
      ensures cmpTick == old(cmpTick) && numTick == old(numTick)
      ensures done + q == old(done) + old(q)
      ensures over ==> |q| == |old(q)| - 1 && D() == old(D())[1..] && c == ticks - old(D())[0]
      ensures !over ==> q == old(q) && D() == old(D())[0 := old(D())[0] - ticks]
    {
      hide Both, NonNegative;
      Ends(link, pred, dlr, q);
      PassedStep(D(), ticks);
      c := ticks - parm[d];
      FirstDelta(parm, q, parm[d] - ticks);
      FirstDelta(parm, q, 0);
      assert parm[d := parm[d] - ticks][d := 0] == parm[d := 0];
      parm := parm[d := parm[d] - ticks];
      over := parm[d] <= 0;
      if over {
        parm := parm[d := 0];
        Evremove(d);
      }
      Ends(link, pred, dlr, q);
    }

    /** tchange: c ticks have gone by. Exactly the events due by then complete, in the order of their deadlines. */
    method Tchange(ticks: int)
      requires Valid() && ticks >= 0
      modifies this
      ensures Valid()
      ensures var k := Expired(old(D()), ticks);
        && q == old(q)[k..] && done == old(done) + old(q)[..k]
        && D() == Passed(old(D()), ticks)
        && Timer(D(), cmpTick, numTick) == Changed(Timer(old(D()), old(cmpTick), old(numTick)), ticks)
      ensures q == [] ==> cmpTick == old(cmpTick) && numTick == old(numTick)
      ensures q != [] ==> 0 <= q[0] < |parm| && cmpTick == parm[q[0]] > 0 && numTick == 0
    {
      var c := ticks;
      var d := dlr;
      ghost var d0, q0, k: nat := D(), q, 0;
      hide Both, Expired, Passed, NonNegative, InArena;
      Ends(link, pred, dlr, q);
      while d != NIL
        invariant Valid() && c >= 0 && |q0| == k + |q| && done + q == old(done) + q0
        invariant d == dlr == Head(q, NIL)
        invariant cmpTick == old(cmpTick) && numTick == old(numTick)
        invariant Expired(d0, ticks) == k + Expired(D(), c) && Passed(d0, ticks) == Passed(D(), c)
        decreases |q|
      {
        Ends(link, pred, dlr, q);
        PassedStep(D(), c);
        var over;
        over, c := Bite(d, c);
        if !over {
          break;
        }
        d := dlr;
        k := k + 1;
      }
      Ends(link, pred, dlr, q);
      SplitAt(old(done), q0, done, q);
      if d != NIL {
        cmpTick := parm[d];
        numTick := 0;
      } else {
        assert D() == [];
        hide Deltas;
        PassedNone(c);
      }
    }

    /** One tick of the clock (_tikcod of aes/ratrbp.S); tchange follows when the count is reached. */
    method Tick()
      requires Valid() && numTick >= 0
      modifies this
      ensures Valid() && numTick >= 0
      ensures Timer(D(), cmpTick, numTick) == Ticked(Timer(old(D()), old(cmpTick), old(numTick)))
      ensures old(cmpTick) == 0 ==> unchanged(this)
      ensures old(cmpTick) !in {0, 1} ==>
        q == old(q) && done == old(done) && cmpTick == old(cmpTick) - 1 && numTick == old(numTick) + 1
      ensures old(cmpTick) == 1 ==> done + q == old(done) + old(q)
    {
      hide Both, NonNegative, Expired, Passed, InArena;
      if cmpTick != 0 {
        numTick := numTick + 1;
        cmpTick := cmpTick - 1;
        if cmpTick == 0 {
          Tchange(numTick);
        }
      }
    }
  }

  lemma Ends(link: seq<int>, pred: seq<int>, head: int, q: seq<int>)
    requires Both(link, pred, head, q)
    ensures InArena(q, |link|) && Distinct(q) && head == Head(q, NIL) && |pred| == |link|
    ensures q == [] <==> head == NIL
  {
  }

  lemma SplitAt(done0: seq<int>, q0: seq<int>, done: seq<int>, q: seq<int>)
    requires done + q == done0 + q0 && |q| <= |q0|
    ensures q == q0[|q0| - |q|..] && done == done0 + q0[..|q0| - |q|]
  {
    assert q == (done + q)[|done|..] && done == (done + q)[..|done|];
    assert q0[|q0| - |q|..] == (done0 + q0)[|done|..];
  }

  lemma NotMet(q: seq<int>, k: nat, e: int)
    requires Apart(q, [e]) && k <= |q|
    ensures k > 0 ==> q[k - 1] != e
    ensures k < |q| ==> q[k] != e
  {
    assert [e][0] == e;
  }

  /** A new value for the first block's entry changes the first entry. */
  lemma FirstDelta(parm: seq<int>, q: seq<int>, v: int)
    requires InArena(q, |parm|) && Distinct(q) && q != []
    ensures Deltas(parm[q[0] := v], q) == Deltas(parm, q)[0 := v]
    ensures Deltas(parm[q[0] := v], q[1..]) == Deltas(parm, q)[1..]
  {
  }

  lemma DeltasTail(parm: seq<int>, q: seq<int>)
    requires InArena(q, |parm|) && q != []
    ensures InArena(q[1..], |parm|) && Deltas(parm, q[1..]) == Deltas(parm, q)[1..]
    ensures NonNegative(Deltas(parm, q)) ==> NonNegative(Deltas(parm, q[1..]))
  {
  }

  // What inserting e before position k writes when own ticks are left to wait after the blocks in front.
  function ParmIn(parm: seq<int>, q: seq<int>, k: nat, e: int, own: int): seq<int>
    requires InArena(q, |parm|) && 0 <= e < |parm| && k <= |q|
  {
    var parm1 := parm[e := own];
    if k < |q| then parm1[q[k] := parm[q[k]] - own] else parm1
  }

  lemma DeltasInsert(parm: seq<int>, q: seq<int>, k: nat, e: int, a: int)
    requires InArena(q, |parm|) && Distinct(q) && Apart(q, [e]) && 0 <= e < |parm| && k <= |q|
    ensures InArena(Inserted(q, k, e), |parm|)
    ensures
      var own := a - Sum(Deltas(parm, q)[..k]);
      Deltas(ParmIn(parm, q, k, e, own), Inserted(q, k, e)) == InsertDelta(Deltas(parm, q), k, a)
  {
    var own, q' := a - Sum(Deltas(parm, q)[..k]), Inserted(q, k, e);
    var parm' := ParmIn(parm, q, k, e, own);
    forall i | 0 <= i <= |q|
      ensures 0 <= q'[i] < |parm|
    {
      InsertedAt(q, k, e, i);
    }
    hide Sum;
    forall i | 0 <= i <= |q|
      ensures parm'[q'[i]] == InsertDelta(Deltas(parm, q), k, a)[i]
    {
      hide Inserted;
      InsertedAt(q, k, e, i);
      assert forall j :: 0 <= j < |q| ==> q[j] != [e][0];
    }
  }

  /** The blocks are linked both ways after the insertion, and their entries are those of InsertDelta. */
  lemma TimerLinked(link: seq<int>, pred: seq<int>, parm: seq<int>, dlr: int, q: seq<int>, k: nat, e: int, own: int,
                    a: int)
    requires Both(link, pred, dlr, q) && |parm| == |link| && InArena(q, |parm|)
    requires 0 <= e < |link| && Apart(q, [e]) && k <= |q| && own == a - Sum(Deltas(parm, q)[..k])
    ensures |pred| == |link| && |Deltas(parm, q)| == |q| && InArena(Inserted(q, k, e), |parm|)
    ensures k > 0 ==> 0 <= q[k - 1] < |link| && q[k - 1] != e
    ensures k < |q| ==> 0 <= q[k] < |link| && q[k] != e
    ensures Both(LinkIn(link, q, k, e), PredIn(pred, q, k, e), if k == 0 then e else dlr, Inserted(q, k, e))
    ensures Deltas(ParmIn(parm, q, k, e, own), Inserted(q, k, e)) == InsertDelta(Deltas(parm, q), k, a)
  {
    hide Both, InsertDelta, NonNegative, Inserted;
    Ends(link, pred, dlr, q);
    DeltasInsert(parm, q, k, e, a);
    BothInsert(link, pred, dlr, q, k, e);
    NotMet(q, k, e);
  }

  // What taking out the block at position k writes: the one behind it waits that much more.
  function ParmOut(parm: seq<int>, q: seq<int>, k: nat): seq<int>
    requires InArena(q, |parm|) && k < |q|
  {
    if k + 1 < |q| then parm[q[k + 1] := parm[q[k + 1]] + parm[q[k]]] else parm
  }

  /** The blocks are linked both ways without it, and their entries are those of RemoveDelta. */
  lemma TimerUnlinked(link: seq<int>, pred: seq<int>, parm: seq<int>, dlr: int, q: seq<int>, k: nat)
    requires Both(link, pred, dlr, q) && |parm| == |link| && InArena(q, |parm|) && k < |q|
    ensures |Deltas(parm, q)| == |q| && |pred| == |link| && InArena(q, |link|) && InArena(Without(q, k), |link|)
    ensures 0 <= q[k] < |link| && link[q[k]] == After(q, k, NIL) && pred[q[k]] == Pred(q, k)
    ensures (k > 0 ==> 0 <= q[k - 1] < |link| && q[k - 1] != q[k]) && (k + 1 < |q| ==> 0 <= q[k + 1] < |link|)
    ensures k + 1 < |q| ==> q[k + 1] != NIL
    ensures Both(LinkOut(link, q, k), PredOut(pred, q, k), if k == 0 then After(q, 0, NIL) else dlr, Without(q, k))
    ensures Deltas(ParmOut(parm, q, k), Without(q, k)) == RemoveDelta(Deltas(parm, q), k)
    ensures NonNegative(Deltas(parm, q)) ==> NonNegative(RemoveDelta(Deltas(parm, q), k))
  {
    hide Both, NonNegative, RemoveDelta;
    Ends(link, pred, dlr, q);
    BothAt(link, pred, dlr, q, k);
    BothUnlink(link, pred, dlr, q, k);
    DeltasRemove(parm, q, k);
    forall i | 0 <= i < |q| - 1
      ensures 0 <= Without(q, k)[i] < |link|
    {
      WithoutAt(q, k, i);
    }
    if NonNegative(Deltas(parm, q)) {
      RemoveNonNegative(Deltas(parm, q), k);
    }
  }

  lemma DeltasRemove(parm: seq<int>, q: seq<int>, k: nat)
    requires InArena(q, |parm|) && Distinct(q) && k < |q|
    ensures
      var parm' := if k + 1 < |q| then parm[q[k + 1] := parm[q[k + 1]] + parm[q[k]]] else parm;
      Deltas(parm', Without(q, k)) == RemoveDelta(Deltas(parm, q), k)
  {
    forall i | 0 <= i < |q| - 1
      ensures Without(q, k)[i] == q[if i < k then i else i + 1]
    {
      WithoutAt(q, k, i);
    }
  }
}
