/** The message pipe of a process: bounded, blocking, with redraw messages merged (aes/gemqueue.c). */
module PipeContents {
  import opened Chains
  import opened Geometry

  const WM_REDRAW := 20

  // A message of 16 bytes as its 8 words.
  type Words = m: seq<int> | |m| == 8 witness [0, 0, 0, 0, 0, 0, 0, 0]

  // Word 2 is the length of what follows, none here.
  predicate Message(m: Words) { m[2] == 0 }

  function RectOf(m: Words): Rect
  {
    Rect(m[4], m[5], m[6], m[7])
  }

  // rc_union
  function Union(a: Rect, b: Rect): Rect {
    var x, y := Min(a.x, b.x), Min(a.y, b.y);
    Rect(x, y, Max(a.x + a.w, b.x + b.w) - x, Max(a.y + a.h, b.y + b.h) - y)
  }

  function WithRect(m: Words, r: Rect): (m': Words)
    ensures RectOf(m') == r && m'[..4] == m[..4]
  {
    m[..4] + [r.x, r.y, r.w, r.h]
  }

  predicate IsRedraw(m: Words, h: int) { m[0] == WM_REDRAW && m[3] == h }

  // The first redraw message for window h, or the length of the queue.
  function FindRedraw(ms: seq<Words>, h: int): (i: nat)
    ensures i <= |ms|
    ensures forall j :: 0 <= j < i ==> !IsRedraw(ms[j], h)
    ensures i < |ms| ==> IsRedraw(ms[i], h)
  {
    if ms == [] || IsRedraw(ms[0], h) then 0 else 1 + FindRedraw(ms[1..], h)
  }

  // What the search of doq finds among the first n words, when it steps over each message and what word 2 adds to it.
  function Scan(q: seq<int>, n: nat, h: int, i: nat): int
    requires n + 8 <= |q|
    decreases n - i
  {
    if i >= n then n
    else if q[i] == WM_REDRAW && q[i + 3] == h then i
    else if q[i + 2] < 0 then n
    else Scan(q, n, h, i + 8 + q[i + 2] / 2)
  }

  /** A message of 16 bytes lets the search find every redraw behind it exactly if its word 2 is zero. */
  lemma WordTwoIff(m: Words)
    requires m[2] >= 0 && m[2] % 2 == 0
    ensures
      (forall r: Words, q: seq<int> :: RedrawBehind(m, r, q) ==> Scan(q, 16, r[3], 0) == 8) <==> m[2] == 0
  {
    hide Scan, RedrawBehind;
    if m[2] == 0 {
      forall r: Words, q: seq<int> | RedrawBehind(m, r, q)
        ensures |q| >= 24 && Scan(q, 16, r[3], 0) == 8
      {
        WordTwoZero(m, r, q);
      }
    } else {
      var r, q := WordTwoLost(m);
    }
  }

  lemma WordTwoZero(m: Words, r: Words, q: seq<int>)
    requires m[2] == 0 && RedrawBehind(m, r, q)
    ensures |q| >= 24 && Scan(q, 16, r[3], 0) == 8
  {
    assert q[8 + 0] == r[0] && q[8 + 3] == r[3];
    assert Scan(q, 16, r[3], 8) == 8;
  }

  // A redraw behind the message, and another one behind that, which the search steps over.
  lemma WordTwoLost(m: Words) returns (r: Words, q: seq<int>)
    requires m[2] > 0 && m[2] % 2 == 0
    ensures RedrawBehind(m, r, q) && |q| >= 24 && Scan(q, 16, r[3], 0) != 8
  {
    hide Scan;
    var h := if m[3] == 0 then 1 else 0;
    r := [WM_REDRAW, 0, 0, h, 0, 0, 0, 0];
    q := seq(24, j requires 0 <= j < 24 => if j < 8 then m[j] else r[if j < 16 then j - 8 else j - 16]);
    assert forall j :: 0 <= j < 8 ==> q[8 + j] == r[j];
    ScanStep(q, 16, h, 0);
    Overrun(q, h, 8 + m[2] / 2);
  }

  lemma ScanStep(q: seq<int>, n: nat, h: int, i: nat)
    requires n + 8 <= |q| && i < n && !(q[i] == WM_REDRAW && q[i + 3] == h) && q[i + 2] >= 0
    ensures Scan(q, n, h, i) == Scan(q, n, h, i + 8 + q[i + 2] / 2)
  {
  }

  ghost predicate RedrawBehind(m: Words, r: Words, q: seq<int>) {
    && r[0] == WM_REDRAW && !IsRedraw(m, r[3]) && |q| >= 24
    && (forall j :: 0 <= j < 8 ==> q[j] == m[j])
    && (forall j :: 0 <= j < 8 ==> q[8 + j] == r[j])
  }

  // Once past the first word of the last message the search leaves the queue.
  lemma Overrun(q: seq<int>, h: int, i: nat)
    requires |q| >= 24 && i > 8 && forall j :: 9 <= j < 16 ==> q[j] != WM_REDRAW
    requires forall j :: 8 <= j < 18 ==> q[j] >= 0
    ensures Scan(q, 16, h, i) == 16
  {
  }

  // The queue after a message was put in.
  function Accepted(ms: seq<Words>, m: Words): seq<Words>
  {
    var i := FindRedraw(ms, m[3]);
    if m[0] == WM_REDRAW && i < |ms| then ms[i := WithRect(ms[i], Union(RectOf(m), RectOf(ms[i])))] else ms + [m]
  }

  // None of the first n messages is a redraw of window h.
  predicate NoRedraw(ms: seq<Words>, h: int, n: nat) {
    forall j :: 0 <= j < n && j < |ms| ==> !(ms[j][0] == WM_REDRAW && ms[j][3] == h)
  }

  // Message k, the first redraw of the window, has grown by the rectangle of m and is the same otherwise.
  predicate MeltedAt(ms: seq<Words>, ms': seq<Words>, m: Words, k: int)
    requires 0 <= k < |ms|
  {
    && ms[k][0] == WM_REDRAW && ms[k][3] == m[3] && NoRedraw(ms, m[3], k)
    && |ms'| == |ms| && (forall j :: 0 <= j < |ms| && j != k ==> ms'[j] == ms[j])
    && ms'[k][..4] == ms[k][..4]
    && ms'[k][4] == Min(ms[k][4], m[4]) && ms'[k][5] == Min(ms[k][5], m[5])
    && ms'[k][4] + ms'[k][6] == Max(ms[k][4] + ms[k][6], m[4] + m[6])
    && ms'[k][5] + ms'[k][7] == Max(ms[k][5] + ms[k][7], m[5] + m[7])
  }

  predicate BehindOrMelted(ms: seq<Words>, ms': seq<Words>, m: Words) {
    if m[0] != WM_REDRAW || NoRedraw(ms, m[3], |ms|) then ms' == ms + [m]
    else exists k :: 0 <= k < |ms| && MeltedAt(ms, ms', m, k)
  }

  /** A message goes behind the others, unless it is a redraw that finds its like. */
  lemma AcceptedIs(ms: seq<Words>, m: Words)
    ensures BehindOrMelted(ms, Accepted(ms, m), m)
  {
    var k := FindRedraw(ms, m[3]);
    if m[0] == WM_REDRAW && !NoRedraw(ms, m[3], |ms|) {
      var j :| 0 <= j < |ms| && ms[j][0] == WM_REDRAW && ms[j][3] == m[3];
      FindNone(ms, m[3], j);
      hide FindRedraw;
      assert MeltedAt(ms, Accepted(ms, m), m, k);
    }
  }

  // The messages other than redraws.
  function Plain(ms: seq<Words>): seq<Words> {
    if ms == [] then []
    else Plain(ms[..|ms| - 1]) + (if ms[|ms| - 1][0] == WM_REDRAW then [] else [ms[|ms| - 1]])
  }

  lemma PlainMore(ms: seq<Words>, m: Words)
    ensures Plain(ms + [m]) == Plain(ms) + if m[0] == WM_REDRAW then [] else [m]
  {
    assert (ms + [m])[..|ms|] == ms;
  }

  lemma PlainNone()
    ensures Plain([]) == []
  {
  }

  lemma {:induction false} PlainSplit(a: seq<Words>, b: seq<Words>)
    ensures Plain(a + b) == Plain(a) + Plain(b)
    decreases |b|
  {
    if b == [] {
      assert a + b == a;
    } else {
      PlainSplit(a, b[..|b| - 1]);
      assert (a + b)[..|a + b| - 1] == a + b[..|b| - 1];
    }
  }

  lemma PlainSame(ms: seq<Words>, i: nat, m: Words)
    requires i < |ms| && ms[i][0] == WM_REDRAW && m[0] == WM_REDRAW
    ensures Plain(ms[i := m]) == Plain(ms)
  {
    assert ms == ms[..i] + [ms[i]] + ms[i + 1..];
    assert ms[i := m] == ms[..i] + [m] + ms[i + 1..];
    PlainSplit(ms[..i] + [ms[i]], ms[i + 1..]);
    PlainSplit(ms[..i] + [m], ms[i + 1..]);
    PlainMore(ms[..i], ms[i]);
    PlainMore(ms[..i], m);
  }

  // ---- redraw rectangles ----

  // The smallest rectangle around all of them.
  function Box(rs: seq<Rect>): Rect
    requires rs != []
  {
    if |rs| == 1 then rs[0] else Union(rs[|rs| - 1], Box(rs[..|rs| - 1]))
  }

  /** The box contains every rectangle, and any other that does contains the box. */
  lemma {:induction false} BoxIsHull(rs: seq<Rect>, r: Rect)
    requires rs != []
    ensures forall i :: 0 <= i < |rs| ==> Within(rs[i], Box(rs))
    ensures (forall i :: 0 <= i < |rs| ==> Within(rs[i], r)) ==> Within(Box(rs), r)
    decreases |rs|
  {
    if |rs| > 1 {
      var most := rs[..|rs| - 1];
      BoxIsHull(most, r);
      assert forall i :: 0 <= i < |most| ==> most[i] == rs[i];
    }
  }

  // ---- the pipe ----

  // An event that waits: the block and, for a writer, its message.
  datatype Waiter = Waiter(e: int, msg: Words)

  datatype Pipe = Pipe(
    msgs: seq<Words>,
    readers: seq<int>,              // p_qdq, first one first
    writers: seq<Waiter>,           // p_qnq
    done: seq<int>,                 // the completed events, in this order
    got: seq<Words>,             // the messages read so far
    sent: seq<Words>,            // the messages accepted so far
    pending: map<int, seq<Rect>>    // by window: the redraws accepted since the last redraw of it was read
  )

  // doq with donq set.
  function In(p: Pipe, m: Words): Pipe
  {
    var old_ := if m[3] in p.pending then p.pending[m[3]] else [];
    p.(
      msgs := Accepted(p.msgs, m),
      sent := p.sent + [m],
      pending := if m[0] == WM_REDRAW then p.pending[m[3] := old_ + [RectOf(m)]] else p.pending
    )
  }

  // doq with donq clear.
  function Out(p: Pipe): Pipe
    requires p.msgs != []
  {
    var m := p.msgs[0];
    p.(
      msgs := p.msgs[1..],
      got := p.got + [m],
      pending := if m[0] == WM_REDRAW then p.pending[m[3] := []] else p.pending
    )
  }

  // aqueue: block e writes m.
  function Write(p: Pipe, size: int, e: int, m: Words): Pipe
  {
    if 16 <= size - 16 * |p.msgs| then
      var p1 := In(p, m).(done := p.done + [e]);
      if p1.readers == [] then p1
      else Out(p1).(done := p1.done + [p1.readers[0]], readers := p1.readers[1..])
    else
      p.(writers := [Waiter(e, m)] + p.writers)
  }

  // aqueue: block e reads.
  function Read(p: Pipe, e: int): Pipe
  {
    if p.msgs != [] then
      var p1 := Out(p).(done := p.done + [e]);
      if p1.writers == [] then p1
      else In(p1, p1.writers[0].msg).(done := p1.done + [p1.writers[0].e], writers := p1.writers[1..])
    else
      p.(readers := [e] + p.readers)
  }

  // At most one redraw per window, and it is the box around what was accepted for it.
  ghost predicate Merged(ms: seq<Words>, pending: map<int, seq<Rect>>) {
    Single(ms) && Boxed(ms, pending) && Queued(ms, pending)
  }

  ghost predicate Single(ms: seq<Words>) {
    forall i, j :: 0 <= i < j < |ms| && ms[i][0] == WM_REDRAW ==> !IsRedraw(ms[j], ms[i][3])
  }

  ghost predicate Boxed(ms: seq<Words>, pending: map<int, seq<Rect>>) {
    forall i :: 0 <= i < |ms| && ms[i][0] == WM_REDRAW ==>
      ms[i][3] in pending && pending[ms[i][3]] != [] && RectOf(ms[i]) == Box(pending[ms[i][3]])
  }

  ghost predicate Queued(ms: seq<Words>, pending: map<int, seq<Rect>>) {
    forall h :: h in pending && pending[h] != [] ==> FindRedraw(ms, h) < |ms|
  }

  ghost predicate Sound(p: Pipe, size: int) {
    && (forall i :: 0 <= i < |p.msgs| ==> Message(p.msgs[i]))
    && (forall i :: 0 <= i < |p.writers| ==> Message(p.writers[i].msg))
    && 16 * |p.msgs| <= size
    && (p.readers != [] ==> p.msgs == [])
    && (p.writers != [] ==> p.msgs != [])
    && Merged(p.msgs, p.pending)
    && Plain(p.sent) == Plain(p.got) + Plain(p.msgs)
  }

  lemma FindNone(ms: seq<Words>, h: int, j: nat)
    requires j < |ms| && IsRedraw(ms[j], h)
    ensures FindRedraw(ms, h) <= j
  {
  }

  lemma Grown(w: Words, was: seq<Rect>, r: Rect)
    requires was != [] && RectOf(w) == Box(was)
    ensures
      var n := WithRect(w, Union(r, RectOf(w)));
      n[0] == w[0] && n[3] == w[3] && RectOf(n) == Box(was + [r])
  {
    var n := WithRect(w, Union(r, RectOf(w)));
    assert (was + [r])[..|was|] == was;
    assert n[0] == n[..4][0] && n[3] == n[..4][3];
  }

  /** A redraw that finds its like grows the rectangle. */
  lemma MeltMerged(ms: seq<Words>, pending: map<int, seq<Rect>>, m: Words, k: nat)
    requires Merged(ms, pending) && m[0] == WM_REDRAW && k == FindRedraw(ms, m[3]) < |ms|
    ensures m[3] in pending
    ensures Merged(ms[k := WithRect(ms[k], Union(RectOf(m), RectOf(ms[k])))],
      pending[m[3] := pending[m[3]] + [RectOf(m)]])
  {
    var was, n := pending[m[3]], WithRect(ms[k], Union(RectOf(m), RectOf(ms[k])));
    var ms', pending' := ms[k := n], pending[m[3] := was + [RectOf(m)]];
    hide Union, Box, WithRect, RectOf, Queued, Single, Boxed, FindRedraw;
    MeltBoxed(ms, pending, m, k);
    assert n[0] == ms[k][0] && n[3] == ms[k][3];
    MeltSingle(ms, k, n);
    QueuedSame(ms, ms', pending, pending', m[3], k);
  }

  lemma MeltSingle(ms: seq<Words>, k: nat, n: Words)
    requires Single(ms) && k < |ms| && n[0] == ms[k][0] && n[3] == ms[k][3]
    ensures Single(ms[k := n])
  {
  }

  lemma MeltBoxed(ms: seq<Words>, pending: map<int, seq<Rect>>, m: Words, k: nat)
    requires Single(ms) && Boxed(ms, pending) && k < |ms| && m[0] == WM_REDRAW && IsRedraw(ms[k], m[3])
    ensures m[3] in pending
    ensures Boxed(ms[k := WithRect(ms[k], Union(RectOf(m), RectOf(ms[k])))],
      pending[m[3] := pending[m[3]] + [RectOf(m)]])
  {
    hide Union, Box, WithRect, RectOf;
    Grown(ms[k], pending[m[3]], RectOf(m));
  }

  lemma QueuedSame(ms: seq<Words>, ms': seq<Words>, pending: map<int, seq<Rect>>, pending': map<int, seq<Rect>>,
                   w: int, k: nat)
    requires Queued(ms, pending) && k < |ms'| && IsRedraw(ms'[k], w) && |ms'| >= |ms|
    requires forall i :: 0 <= i < |ms| ==> ms'[i][0] == ms[i][0] && ms'[i][3] == ms[i][3]
    requires forall h :: h in pending' && h != w ==> h in pending && pending'[h] == pending[h]
    ensures Queued(ms', pending')
  {
    forall h | h in pending' && pending'[h] != []
      ensures FindRedraw(ms', h) < |ms'|
    {
      FindNone(ms', h, if h == w then k else FindRedraw(ms, h));
    }
  }

  /** Any other message goes to the end. */
  lemma AppendMerged(ms: seq<Words>, pending: map<int, seq<Rect>>, m: Words)
    requires Merged(ms, pending) && (m[0] == WM_REDRAW ==> FindRedraw(ms, m[3]) == |ms|)
    ensures Merged(ms + [m], if m[0] == WM_REDRAW then pending[m[3] := [RectOf(m)]] else pending)
    ensures m[0] == WM_REDRAW && m[3] in pending ==> pending[m[3]] == []
  {
    var ms', pending' := ms + [m], if m[0] == WM_REDRAW then pending[m[3] := [RectOf(m)]] else pending;
    assert m[0] == WM_REDRAW && m[3] in pending ==> pending[m[3]] == [];
    hide Queued, Box, RectOf;
    if m[0] == WM_REDRAW {
      NoneQueued(ms, m[3]);
      QueuedSame(ms, ms', pending, pending', m[3], |ms|);
    } else {
      QueuedMore(ms, m, pending);
    }
  }

  lemma QueuedMore(ms: seq<Words>, m: Words, pending: map<int, seq<Rect>>)
    requires Queued(ms, pending)
    ensures Queued(ms + [m], pending)
  {
    forall h | h in pending && pending[h] != []
      ensures FindRedraw(ms + [m], h) < |ms + [m]|
    {
      var j := FindRedraw(ms, h);
      assert (ms + [m])[j] == ms[j];
      FindNone(ms + [m], h, j);
    }
  }

  lemma NoneQueued(ms: seq<Words>, w: int)
    requires FindRedraw(ms, w) == |ms|
    ensures forall i :: 0 <= i < |ms| ==> !IsRedraw(ms[i], w)
  {
  }

  lemma InMerged(ms: seq<Words>, pending: map<int, seq<Rect>>, m: Words)
    requires Merged(ms, pending)
    ensures
      var was := if m[3] in pending then pending[m[3]] else [];
      Merged(Accepted(ms, m), if m[0] == WM_REDRAW then pending[m[3] := was + [RectOf(m)]] else pending)
  {
    hide Merged, WithRect, Union;
    var k := FindRedraw(ms, m[3]);
    if m[0] == WM_REDRAW && k < |ms| {
      MeltMerged(ms, pending, m, k);
    } else {
      AppendMerged(ms, pending, m);
      assert [] + [RectOf(m)] == [RectOf(m)];
    }
  }

  lemma OutMerged(ms: seq<Words>, pending: map<int, seq<Rect>>)
    requires Merged(ms, pending) && ms != []
    ensures Merged(ms[1..], if ms[0][0] == WM_REDRAW then pending[ms[0][3] := []] else pending)
  {
    var ms', pending' := ms[1..], if ms[0][0] == WM_REDRAW then pending[ms[0][3] := []] else pending;
    forall i, j | 0 <= i < j < |ms'| && ms'[i][0] == WM_REDRAW
      ensures !IsRedraw(ms'[j], ms'[i][3])
    {
      assert ms'[i] == ms[i + 1] && ms'[j] == ms[j + 1];
    }
    forall i | 0 <= i < |ms'| && ms'[i][0] == WM_REDRAW
      ensures ms'[i][3] in pending' && pending'[ms'[i][3]] != [] && RectOf(ms'[i]) == Box(pending'[ms'[i][3]])
    {
      assert ms'[i] == ms[i + 1];
    }
    forall h | h in pending' && pending'[h] != []
      ensures FindRedraw(ms', h) < |ms'|
    {
      var j := FindRedraw(ms, h);
      assert j > 0 && ms'[j - 1] == ms[j];
      FindNone(ms', h, j - 1);
    }
  }

  lemma AcceptedPlain(ms: seq<Words>, m: Words)
    ensures Plain(Accepted(ms, m)) == Plain(ms) + if m[0] == WM_REDRAW then [] else [m]
    ensures |ms| <= |Accepted(ms, m)| <= |ms| + 1 && Accepted(ms, m) != []
    ensures ms == [] ==> Accepted(ms, m) == [m]
    ensures forall i :: 0 <= i < |Accepted(ms, m)| ==> Accepted(ms, m)[i][2] == if i < |ms| then ms[i][2] else m[2]
  {
    var i := FindRedraw(ms, m[3]);
    if m[0] == WM_REDRAW && i < |ms| {
      var merged := WithRect(ms[i], Union(RectOf(m), RectOf(ms[i])));
      assert merged[0] == merged[..4][0] && merged[2] == merged[..4][2];
      PlainSame(ms, i, merged);
    } else {
      PlainMore(ms, m);
    }
  }

  // What a single transfer keeps.
  ghost predicate Half(p: Pipe) {
    && (forall i :: 0 <= i < |p.msgs| ==> Message(p.msgs[i]))
    && Merged(p.msgs, p.pending)
    && Plain(p.sent) == Plain(p.got) + Plain(p.msgs)
  }

  lemma InHalf(p: Pipe, m: Words)
    requires Half(p) && Message(m)
    ensures Half(In(p, m)) && |In(p, m).msgs| <= |p.msgs| + 1 && In(p, m).msgs != []
    ensures p.msgs == [] ==> |In(p, m).msgs| == 1
  {
    hide Plain, Merged, FindRedraw;
    InMerged(p.msgs, p.pending, m);
    AcceptedPlain(p.msgs, m);
    PlainMore(p.sent, m);
  }

  lemma OutHalf(p: Pipe)
    requires Half(p) && p.msgs != []
    ensures Half(Out(p)) && |Out(p).msgs| == |p.msgs| - 1
  {
    hide Plain, Merged;
    OutMerged(p.msgs, p.pending);
    PlainNone();
    PlainMore(p.got, p.msgs[0]);
    assert p.msgs == [p.msgs[0]] + p.msgs[1..];
    PlainSplit([p.msgs[0]], p.msgs[1..]);
    PlainMore([], p.msgs[0]);
    assert [] + [p.msgs[0]] == [p.msgs[0]];
  }

  /** What a write does: it waits, or the message is accepted, and goes to the first waiting reader if there is one. */
  lemma WriteIs(p: Pipe, size: int, e: int, m: Words)
    requires Sound(p, size)
    ensures
      var p' := Write(p, size, e, m);
      if size - 16 * |p.msgs| < 16 then p' == p.(writers := [Waiter(e, m)] + p.writers)
      else
        && p'.writers == p.writers && p'.sent == p.sent + [m]
        && if p.readers == [] then p'.readers == [] && p'.done == p.done + [e] && p'.got == p.got
           else
             && p'.readers == p.readers[1..] && p'.done == p.done + [e, p.readers[0]] && p'.got == p.got + [m]
             && p'.msgs == []
  {
    hide Merged, Plain;
    if p.readers != [] {
      assert FindRedraw([], m[3]) == 0 && [] + [m] == [m];
      assert p.done + [e] + [p.readers[0]] == p.done + [e, p.readers[0]];
    }
  }

  /** What a read does: it waits, or takes the first message, and the first waiting writer has its message accepted. */
  lemma ReadIs(p: Pipe, e: int)
    ensures
      var p' := Read(p, e);
      if p.msgs == [] then p' == p.(readers := [e] + p.readers)
      else
        && p'.readers == p.readers && p'.got == p.got + [p.msgs[0]]
        && if p.writers == [] then
             p'.writers == [] && p'.done == p.done + [e] && p'.sent == p.sent && p'.msgs == p.msgs[1..]
           else
             && p'.writers == p.writers[1..] && p'.done == p.done + [e, p.writers[0].e]
             && p'.sent == p.sent + [p.writers[0].msg]
  {
    hide Accepted;
    if p.writers != [] {
      assert p.done + [e] + [p.writers[0].e] == p.done + [e, p.writers[0].e];
    }
  }

  /** Every write keeps the pipe sound. */
  lemma WriteSound(p: Pipe, size: int, e: int, m: Words)
    requires Sound(p, size) && Message(m) && size >= 16
    ensures Sound(Write(p, size, e, m), size)
  {
    hide Plain, Merged;
    if 16 <= size - 16 * |p.msgs| {
      InHalf(p, m);
      if p.readers != [] {
        OutHalf(In(p, m).(done := p.done + [e]));
      }
    }
  }

  /** Every read keeps the pipe sound. */
  lemma ReadSound(p: Pipe, size: int, e: int)
    requires Sound(p, size)
    ensures Sound(Read(p, e), size)
  {
    hide Plain, Merged;
    if p.msgs != [] {
      OutHalf(p);
      if p.writers != [] {
        InHalf(Out(p).(done := p.done + [e]), p.writers[0].msg);
      }
    }
  }

  /** Readers and writers are never stuck at the same time. */
  lemma NeverBothStuck(p: Pipe, size: int)
    requires Sound(p, size)
    ensures p.readers == [] || p.writers == []
  {
  }

  // acancel: the reader or the writer at position k waits no longer; its event does not complete.
  function NoReader(p: Pipe, k: nat): Pipe
    requires k < |p.readers|
  {
    p.(readers := Without(p.readers, k))
  }

  function NoWriter(p: Pipe, k: nat): Pipe
    requires k < |p.writers|
  {
    p.(writers := Without(p.writers, k))
  }

  /** Cancelling a wait keeps the pipe sound. */
  lemma CancelSound(p: Pipe, size: int, k: nat)
    requires Sound(p, size)
    ensures k < |p.readers| ==> Sound(NoReader(p, k), size)
    ensures k < |p.writers| ==> Sound(NoWriter(p, k), size)
  {
    if k < |p.writers| {
      forall i | 0 <= i < |p.writers| - 1
        ensures Message(Without(p.writers, k)[i].msg)
      {
        assert Without(p.writers, k)[i] == p.writers[if i < k then i else i + 1];
      }
    }
  }

  // ---- who is served, and when ----

  // No writer waits while there is room.
  predicate Busy(p: Pipe, size: int) {
    p.writers != [] ==> size - 16 * |p.msgs| < 16
  }

  // The message is a redraw and finds its like.
  predicate Melts(ms: seq<Words>, m: Words) {
    m[0] == WM_REDRAW && FindRedraw(ms, m[3]) < |ms|
  }

  /** A write or a cancelled wait makes no writer wait in vain. */
  lemma WriteBusy(p: Pipe, size: int, e: int, m: Words, k: nat)
    requires Busy(p, size)
    ensures Busy(Write(p, size, e, m), size)
    ensures k < |p.writers| ==> Busy(NoWriter(p, k), size)
  {
  }

  /**
   A read does so if and only if two writers wait and the message of the first melts: one message leaves, but the second
   writer is not asked again.
   */
  lemma ReadBusyIff(p: Pipe, size: int, e: int)
    requires Sound(p, size) && Busy(p, size)
    ensures Busy(Read(p, e), size) <==> |p.writers| < 2 || !Melts(p.msgs[1..], p.writers[0].msg)
  {
    hide Merged, Plain;
  }

  /** Such a read: of a full queue for eight messages, with a redraw of a window in it and another one waiting. */
  lemma RoomLeft()
    ensures exists p: Pipe, e :: Sound(p, 128) && Busy(p, 128) && |Read(p, e).msgs| == 7 && |Read(p, e).writers| == 1
  {
    var x: Words := [0, 0, 0, 0, 0, 0, 0, 0];
    var r: Words := [WM_REDRAW, 0, 0, 1, 0, 0, 8, 8];
    var p := RoomFor(seq(7, _ => x), r, x);
    assert |Read(p, 4).msgs| == 7;
  }

  // Messages other than redraws in front, a redraw behind; another redraw of its window waits, and one more message.
  lemma RoomFor(front: seq<Words>, r: Words, x: Words) returns (p: Pipe)
    requires front != [] && Message(x) && Message(r) && r[0] == WM_REDRAW
    requires forall i :: 0 <= i < |front| ==> front[i] == x && x[0] != WM_REDRAW
    ensures Sound(p, 16 * |front| + 16) && Busy(p, 16 * |front| + 16)
    ensures forall e :: |Read(p, e).msgs| == |front| && |Read(p, e).writers| == 1
  {
    var ms := front + [r];
    p := Pipe(ms, [], [Waiter(3, r), Waiter(2, x)], [], [], ms, map[r[3] := [RectOf(r)]]);
    FindLast(front, r);
    FindLast(front[1..], r);
    assert ms[1..] == front[1..] + [r];
    PlainNone();
    hide Plain, FindRedraw;
    assert [] + Plain(ms) == Plain(ms);
    assert forall i :: 0 <= i < |ms| ==> Message(ms[i]);
    assert Box([RectOf(r)]) == RectOf(r);
    assert Merged(ms, p.pending);
    hide Merged, Message;
    assert Melts(ms[1..], r);
  }

  lemma FindLast(ms: seq<Words>, r: Words)
    requires r[0] == WM_REDRAW && forall i :: 0 <= i < |ms| ==> ms[i][0] != WM_REDRAW
    ensures FindRedraw(ms + [r], r[3]) == |ms|
  {
    assert (ms + [r])[|ms|] == r;
    FindNone(ms + [r], r[3], |ms|);
    assert forall j :: 0 <= j < |ms| ==> (ms + [r])[j] == ms[j];
  }

  /** Of two writers that find the queue full, the later one is served first. */
  lemma LastWriterFirst(p: Pipe, size: int, e1: int, m1: Words, e2: int, m2: Words, e: int)
    requires 0 < size - 16 * |p.msgs| + 16 <= 16 <= size
    ensures
      var p' := Read(Write(Write(p, size, e1, m1), size, e2, m2), e);
      p'.done == p.done + [e, e2] && p'.writers == [Waiter(e1, m1)] + p.writers
  {
    hide Accepted;
    assert p.done + [e] + [e2] == p.done + [e, e2];
  }

  /** The redraw message of a window covers every rectangle accepted for it since the last one was read. */
  lemma RedrawCovers(p: Pipe, size: int, h: int, i: nat)
    requires Sound(p, size) && h in p.pending && i < |p.pending[h]|
    ensures
      var k := FindRedraw(p.msgs, h);
      k < |p.msgs| && Within(p.pending[h][i], RectOf(p.msgs[k]))
  {
    BoxIsHull(p.pending[h], Rect(0, 0, 0, 0));
  }
}

module MessagePipe {
  import opened Chains
  import opened Geometry
  import opened PipeContents

  // The words of the queue are those of the messages, one after the other.
  ghost predicate Stored(queue: seq<int>, ms: seq<Words>) {
    && 8 * |ms| <= |queue|
    && forall i, j :: 0 <= i < |ms| && 0 <= j < 8 ==> queue[8 * i + j] == ms[i][j]
  }

  lemma StoredAt(queue: seq<int>, ms: seq<Words>, i: nat)
    requires Stored(queue, ms) && i < |ms|
    ensures 8 * i + 8 <= |queue| && queue[8 * i..8 * i + 8] == ms[i]
    ensures queue[8 * i] == ms[i][0] && queue[8 * i + 2] == ms[i][2] && queue[8 * i + 3] == ms[i][3]
    ensures Rect(queue[8 * i + 4], queue[8 * i + 5], queue[8 * i + 6], queue[8 * i + 7]) == RectOf(ms[i])
  {
    assert queue[8 * i + 0] == ms[i][0];
  }

  /** Words behind the messages do not matter. */
  lemma StoredPrefix(queue: seq<int>, queue': seq<int>, ms: seq<Words>)
    requires Stored(queue, ms) && |queue'| == |queue| && queue'[..8 * |ms|] == queue[..8 * |ms|]
    ensures Stored(queue', ms)
  {
    forall i, j | 0 <= i < |ms| && 0 <= j < 8
      ensures queue'[8 * i + j] == ms[i][j]
    {
      assert queue'[..8 * |ms|][8 * i + j] == queue[..8 * |ms|][8 * i + j];
    }
  }

  lemma StoredMore(queue: seq<int>, ms: seq<Words>, m: Words)
    requires Stored(queue, ms) && 8 * |ms| + 8 <= |queue|
    requires forall j :: 0 <= j < 8 ==> queue[8 * |ms| + j] == m[j]
    ensures Stored(queue, ms + [m])
  {
  }

  lemma StoredRect(queue: seq<int>, ms: seq<Words>, k: nat, r: Rect)
    requires Stored(queue, ms) && k < |ms|
    ensures Stored(queue[8 * k + 4 := r.x][8 * k + 5 := r.y][8 * k + 6 := r.w][8 * k + 7 := r.h],
      ms[k := WithRect(ms[k], r)])
  {
    var queue' := queue[8 * k + 4 := r.x][8 * k + 5 := r.y][8 * k + 6 := r.w][8 * k + 7 := r.h];
    var m := WithRect(ms[k], r);
    var ms' := ms[k := m];
    assert m[..4] == ms[k][..4];
    forall i, j | 0 <= i < |ms| && 0 <= j < 8
      ensures queue'[8 * i + j] == ms'[i][j]
    {
      assert queue[8 * i + j] == ms[i][j];
      if i == k && j < 4 {
        assert m[j] == m[..4][j] && ms[k][j] == ms[k][..4][j];
      }
    }
  }

  class Queue {
    const size: nat            // QUEUE_SIZE, in bytes
    const queue: array<int>    // p_queue, in words
    var qindex: nat            // p_qindex, in bytes
    var qdq: seq<int>          // the events waiting to read, first one first
    var qnq: seq<Waiter>       // the events waiting to write
    ghost var p: Pipe

    ghost predicate Valid()
      reads this, queue
    {
      && size >= 16 && queue.Length == size / 2
      && qindex == 16 * |p.msgs| && Stored(queue[..], p.msgs)
      && qdq == p.readers && qnq == p.writers
      && Sound(p, size)
    }

    constructor (qsize: nat)
      requires qsize >= 16
      ensures Valid() && size == qsize && p == Pipe([], [], [], [], [], [], map[]) && fresh(queue)
    {
      size := qsize;
      queue := new int[qsize / 2];
      qindex, qdq, qnq := 0, [], [];
      p := Pipe([], [], [], [], [], [], map[]);
    }

    /** doq, putting a message in: it is copied behind the others, and a redraw that finds its like melts into it. */
    method PutIn(m: Words)
      requires queue.Length == size / 2 && qindex == 16 * |p.msgs| && qindex + 16 <= size
      requires Stored(queue[..], p.msgs) && forall i :: 0 <= i < |p.msgs| ==> Message(p.msgs[i])
      modifies this`qindex, this`p, queue
      ensures p == In(old(p), m) && qindex == 16 * |p.msgs| && Stored(queue[..], p.msgs)
      ensures BehindOrMelted(old(p.msgs), p.msgs, m)
    {
      hide Stored;
      AcceptedIs(p.msgs, m);
      ghost var ms := p.msgs;
      var n, nm := 16, qindex / 2;
      CopyIn(m);
      if queue[nm] == WM_REDRAW {
        var index := Match(nm, m);
        if index < qindex {
          Melt(index / 2, nm, m);
          n := 0;
        }
      }
      if n != 0 {
        StoredMore(queue[..], ms, m);
      }
      qindex := qindex + n;
      p := In(p, m);
    }

    // rc_union of the rectangle of the message at nm into that of the one at om.
    method Melt(om: nat, nm: nat, m: Words)
      requires queue.Length == size / 2 && nm + 8 <= queue.Length && nm == 8 * |p.msgs| && Stored(queue[..], p.msgs)
      requires forall j :: 0 <= j < 8 ==> queue[nm + j] == m[j]
      requires om == 8 * FindRedraw(p.msgs, m[3]) && om < nm
      modifies queue
      ensures
        var k := FindRedraw(p.msgs, m[3]);
        k < |p.msgs| && Stored(queue[..], p.msgs[k := WithRect(p.msgs[k], Union(RectOf(m), RectOf(p.msgs[k])))])
    {
      hide Stored;
      ghost var k, ms := FindRedraw(p.msgs, m[3]), p.msgs;
      StoredAt(queue[..], ms, k);
      var x, y := Min(queue[nm + 4], queue[om + 4]), Min(queue[nm + 5], queue[om + 5]);
      var w := Max(queue[nm + 4] + queue[nm + 6], queue[om + 4] + queue[om + 6]);
      var h := Max(queue[nm + 5] + queue[nm + 7], queue[om + 5] + queue[om + 7]);
      ghost var r, was := Union(RectOf(m), RectOf(ms[k])), queue[..];
      assert r == Rect(x, y, w - x, h - y);
      hide Union, Min, Max;
      StoredRect(queue[..], ms, k, r);
      queue[om + 4] := x;
      queue[om + 5] := y;
      queue[om + 6] := w - x;
      queue[om + 7] := h - y;
      assert queue[..] == was[8 * k + 4 := r.x][8 * k + 5 := r.y][8 * k + 6 := r.w][8 * k + 7 := r.h];
    }

    // The copy of a message behind the others.
    method CopyIn(m: Words)
      requires queue.Length == size / 2 && qindex == 16 * |p.msgs| && qindex + 16 <= size && Stored(queue[..], p.msgs)
      modifies queue
      ensures Stored(queue[..], p.msgs)
      ensures forall j :: 0 <= j < 8 ==> queue[8 * |p.msgs| + j] == m[j]
    {
      hide Stored;
      var at := qindex / 2;
      for i := 0 to 8
        invariant queue[..at] == old(queue[..at])
        invariant forall j :: 0 <= j < i ==> queue[at + j] == m[j]
      {
        queue[at + i] := m[i];
      }
      StoredPrefix(old(queue[..]), queue[..], p.msgs);
    }

    // The offset of the first redraw message for the same window, in bytes.
    method Match(nm: nat, m: Words) returns (index: int)
      requires queue.Length == size / 2 && qindex == 16 * |p.msgs| && qindex + 16 <= size && nm == qindex / 2
      requires Stored(queue[..], p.msgs) && forall i :: 0 <= i < |p.msgs| ==> Message(p.msgs[i])
      requires forall j :: 0 <= j < 8 ==> queue[8 * |p.msgs| + j] == m[j]
      ensures index == 16 * FindRedraw(p.msgs, m[3]) == 2 * Scan(queue[..], nm, m[3], 0)
    {
      hide Stored;
      index := 0;
      ghost var k: nat := 0;
      while index < qindex
        invariant k <= |p.msgs| && index == 16 * k
        invariant forall j :: 0 <= j < k ==> !IsRedraw(p.msgs[j], m[3])
        invariant Scan(queue[..], nm, m[3], 8 * k) == Scan(queue[..], nm, m[3], 0)
        decreases |p.msgs| - k
      {
        var om := index / 2;
        StoredAt(queue[..], p.msgs, k);
        if queue[om] == WM_REDRAW && queue[nm + 3] == queue[om + 3] {
          FindFirst(p.msgs, m[3], k);
          return;
        }
        index := index + queue[om + 2] + 16;
        k := k + 1;
      }
      FindFirst(p.msgs, m[3], k);
    }

    /** doq, taking the first message out: the rest moves to the front. */
    method TakeOut() returns (m: Words)
      requires queue.Length == size / 2 && qindex == 16 * |p.msgs| && qindex <= size
      requires p.msgs != [] && Stored(queue[..], p.msgs)
      modifies this`qindex, this`p, queue
      ensures p == Out(old(p)) && m == old(p.msgs[0]) && qindex == 16 * |p.msgs| && Stored(queue[..], p.msgs)
    {
      StoredAt(queue[..], p.msgs, 0);
      m := queue[..8];
      ghost var was := queue[..];
      qindex := qindex - 16;
      ghost var ms := p.msgs;
      var n := qindex / 2;
      for i := 0 to n
        invariant p == old(p) && qindex == 16 * |ms| - 16
        invariant forall j :: 0 <= j < i ==> queue[j] == was[j + 8]
        invariant forall j :: i <= j < queue.Length ==> queue[j] == was[j]
      {
        queue[i] := queue[i + 8];
      }
      p := Out(p);
      forall i, j | 0 <= i < |p.msgs| && 0 <= j < 8
        ensures queue[..][8 * i + j] == p.msgs[i][j]
      {
        assert was[8 * (i + 1) + j] == ms[i + 1][j];
      }
    }

    /** aqueue for a writer: blocks it, or takes its message and hands one to a waiting reader. */
    method Aqwrite(e: int, m: Words) returns (woken: int, out: Words)
      requires Valid() && Message(m)
      modifies this`qindex, this`qdq, this`qnq, this`p, queue
      ensures Valid() && p == Write(old(p), size, e, m)
      ensures
        if size - 16 * |old(p.msgs)| >= 16 && old(p.readers) != [] then
          woken == old(p.readers[0]) && p.got == old(p.got) + [out]
        else woken == NIL
    {
      woken, out := NIL, m;
      hide Sound, Stored, Accepted, Message, BehindOrMelted;
      WriteSound(p, size, e, m);
      Counts(p, size);
      if 16 <= size - qindex {
        PutIn(m);
        AcceptedPlain(old(p.msgs), m);
        p := p.(done := p.done + [e]);
        if qdq != [] {
          woken := qdq[0];
          qdq := qdq[1..];
          out := TakeOut();
          p := p.(done := p.done + [woken], readers := qdq);
        }
      } else {
        qnq := [Waiter(e, m)] + qnq;
        p := p.(writers := qnq);
      }
    }

    /** aqueue for a reader: blocks it, or hands it a message and takes that of a waiting writer. */
    method Aqread(e: int) returns (ready: bool, out: Words)
      requires Valid()
      modifies this`qindex, this`qdq, this`qnq, this`p, queue
      ensures Valid() && p == Read(old(p), e)
      ensures ready == (old(p.msgs) != []) && (ready ==> out == old(p.msgs[0]))
    {
      out := [0, 0, 0, 0, 0, 0, 0, 0];
      hide Sound, Stored, Accepted, Message, BehindOrMelted;
      ReadSound(p, size, e);
      Counts(p, size);
      ready := qindex > 0;
      if ready {
        out := TakeOut();
        p := p.(done := p.done + [e]);
        if qnq != [] {
          var next := qnq[0];
          qnq := qnq[1..];
          PutIn(next.msg);
          p := p.(done := p.done + [next.e], writers := qnq);
        }
      } else {
        qdq := [e] + qdq;
        p := p.(readers := qdq);
      }
    }

    /** acancel on a waiting reader: takeoff takes it out of its list, wherever it stands. */
    method CancelRead(k: nat)
      requires Valid() && k < |p.readers|
      modifies this`qdq, this`p
      ensures Valid() && p == NoReader(old(p), k)
    {
      CancelSound(p, size, k);
      hide Sound, Stored;
      qdq := Without(qdq, k);
      p := p.(readers := qdq);
    }

    /** acancel on a waiting writer. */
    method CancelWrite(k: nat)
      requires Valid() && k < |p.writers|
      modifies this`qnq, this`p
      ensures Valid() && p == NoWriter(old(p), k)
    {
      CancelSound(p, size, k);
      hide Sound, Stored;
      qnq := Without(qnq, k);
      p := p.(writers := qnq);
    }
  }

  lemma Counts(p: Pipe, size: int)
    requires Sound(p, size)
    ensures 16 * |p.msgs| <= size && forall i :: 0 <= i < |p.msgs| ==> Message(p.msgs[i])
    ensures forall i :: 0 <= i < |p.writers| ==> Message(p.writers[i].msg)
  {
  }

  lemma FindFirst(ms: seq<Words>, h: int, k: nat)
    requires k <= |ms| && (forall j :: 0 <= j < k ==> !IsRedraw(ms[j], h)) && (k < |ms| ==> IsRedraw(ms[k], h))
    ensures FindRedraw(ms, h) == k
  {
    if k < |ms| {
      FindNone(ms, h, k);
    }
  }
}
