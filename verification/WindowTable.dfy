/**
 The window database of aes/newwmlib.c as values: the hash table over the slots, the ascending list of handles and
 the memory blocks, each tied to one map from live handles to slots.
 */
module WindowTable {
  import opened Chains
  import opened SlotCount

  const HASHSIZ := 8
  const NUM_WIN := 8  // slots per memory block

  // ---- hash table ----

  // Concrete: handle and chain link of each slot, chain heads. Ghost: the chain each slot is on, the chains, the map.
  datatype Table = Table(
    whandle: seq<int>, wnext: seq<int>, hashtbl: seq<int>,
    owner: seq<int>, chains: seq<seq<int>>, db: map<int, int>
  )

  ghost predicate HashOk(t: Table) {
    && |t.whandle| == |t.wnext| == |t.owner| && |t.hashtbl| == |t.chains| == HASHSIZ
    && (forall b {:trigger t.chains[b]} :: 0 <= b < HASHSIZ ==> Holds(t.wnext, t.hashtbl[b], t.chains[b], t.owner, b))
    && (forall n :: 0 <= n < |t.owner| ==> FREE <= t.owner[n] < HASHSIZ)
    && Indexed(t)
  }

  // The map and the slots on the chains say the same.
  ghost predicate Indexed(t: Table) {
    && |t.whandle| == |t.owner|
    && (forall h :: h in t.db ==>
      h >= 0 && 0 <= t.db[h] < |t.owner| && t.whandle[t.db[h]] == h && t.owner[t.db[h]] == h % HASHSIZ)
    && forall n :: 0 <= n < |t.owner| && t.owner[n] != FREE ==> t.whandle[n] in t.db && t.db[t.whandle[n]] == n
  }

  // A memory block of unused slots is added.
  function Extended(t: Table): Table {
    var nils := seq(NUM_WIN, _ => NIL);
    t.(whandle := t.whandle + nils, wnext := t.wnext + nils, owner := t.owner + nils)
  }

  lemma ExtendedOk(t: Table)
    requires HashOk(t)
    ensures HashOk(Extended(t))
  {
    var t' := Extended(t);
    forall b | 0 <= b < HASHSIZ
      ensures Holds(t'.wnext, t'.hashtbl[b], t'.chains[b], t'.owner, b)
    {
      HoldsKept(t.wnext, t'.wnext, t.hashtbl[b], t.chains[b], t.owner, t'.owner, b);
    }
  }

  // A slot without a window may get another handle.
  lemma RenamedOk(t: Table, n: int, h: int)
    requires HashOk(t) && 0 <= n < |t.owner| && t.owner[n] == FREE
    ensures HashOk(t.(whandle := t.whandle[n := h]))
  {
  }

  // storewp: the new window goes to the front of its chain.
  function Stored(t: Table, n: int): Table
    requires 0 <= n < |t.whandle| == |t.wnext| == |t.owner| && |t.hashtbl| == |t.chains| == HASHSIZ && t.whandle[n] >= 0
  {
    var b := t.whandle[n] % HASHSIZ;
    t.(
      wnext := t.wnext[n := t.hashtbl[b]],
      hashtbl := t.hashtbl[b := n],
      owner := t.owner[n := b],
      chains := t.chains[b := [n] + t.chains[b]],
      db := t.db[t.whandle[n] := n]
    )
  }

  lemma StoredOk(t: Table, n: int)
    requires HashOk(t) && 0 <= n < |t.owner| && t.owner[n] == FREE && t.whandle[n] >= 0 && t.whandle[n] !in t.db
    ensures HashOk(Stored(t, n))
  {
    var t', b := Stored(t, n), t.whandle[n] % HASHSIZ;
    forall c | 0 <= c < HASHSIZ
      ensures Holds(t'.wnext, t'.hashtbl[c], t'.chains[c], t'.owner, c)
    {
      if c == b {
        HoldsPush(t.wnext, t.hashtbl[b], t.chains[b], t.owner, b, n);
      } else {
        HoldsKept(t.wnext, t'.wnext, t.hashtbl[c], t.chains[c], t.owner, t'.owner, c);
      }
    }
  }

  // wm_delete, first part: the slot at position k of its chain leaves the table.
  function Removed(t: Table, b: nat, k: nat): Table
    requires b < |t.hashtbl| == |t.chains| && k < |t.chains[b]| && InArena(t.chains[b], |t.wnext|)
    requires |t.whandle| == |t.wnext| == |t.owner|
  {
    var c := t.chains[b];
    var n := c[k];
    t.(
      wnext := if k == 0 then t.wnext else t.wnext[c[k - 1] := t.wnext[n]],
      hashtbl := if k == 0 then t.hashtbl[b := t.wnext[n]] else t.hashtbl,
      owner := t.owner[n := FREE],
      chains := t.chains[b := Without(c, k)],
      db := t.db - {t.whandle[n]}
    )
  }

  lemma RemovedOk(t: Table, b: nat, k: nat)
    requires HashOk(t) && b < HASHSIZ && k < |t.chains[b]|
    ensures InArena(t.chains[b], |t.wnext|) && HashOk(Removed(t, b, k))
  {
    var c := t.chains[b];
    assert Holds(t.wnext, t.hashtbl[b], c, t.owner, b);
    var t', n := Removed(t, b, k), c[k];
    assert t.owner[n] == b && (k > 0 ==> t.owner[c[k - 1]] == b);
    forall d | 0 <= d < HASHSIZ
      ensures Holds(t'.wnext, t'.hashtbl[d], t'.chains[d], t'.owner, d)
    {
      if d == b {
        HoldsUnlink(t.wnext, t.hashtbl[b], c, t.owner, b, k, FREE);
      } else {
        HoldsKept(t.wnext, t'.wnext, t.hashtbl[d], t.chains[d], t.owner, t'.owner, d);
      }
    }
    assert Indexed(t') by {
      hide Holds;
      assert t.db[t.whandle[n]] == n;
    }
  }

  // wm_delete, second part: the window in slot chains[b][k] is copied to the unused slot e.
  function Moved(t: Table, b: nat, k: nat, e: int): Table
    requires b < |t.hashtbl| == |t.chains| && k < |t.chains[b]| && InArena(t.chains[b], |t.wnext|)
    requires |t.whandle| == |t.wnext| == |t.owner| && 0 <= e < |t.wnext|
  {
    var c := t.chains[b];
    var n := c[k];
    var wnext := t.wnext[e := t.wnext[n]];
    t.(
      whandle := t.whandle[e := t.whandle[n]],
      wnext := if k == 0 then wnext else wnext[c[k - 1] := e],
      hashtbl := if k == 0 then t.hashtbl[b := e] else t.hashtbl,
      owner := t.owner[e := b][n := FREE],
      chains := t.chains[b := c[k := e]],
      db := t.db[t.whandle[n] := e]
    )
  }

  lemma MovedOk(t: Table, b: nat, k: nat, e: int)
    requires HashOk(t) && b < HASHSIZ && k < |t.chains[b]| && 0 <= e < |t.owner| && t.owner[e] == FREE
    ensures InArena(t.chains[b], |t.wnext|) && HashOk(Moved(t, b, k, e))
  {
    var c := t.chains[b];
    assert Holds(t.wnext, t.hashtbl[b], c, t.owner, b);
    var t', n := Moved(t, b, k, e), c[k];
    assert t.owner[n] == b && (k > 0 ==> t.owner[c[k - 1]] == b);
    forall d | 0 <= d < HASHSIZ
      ensures Holds(t'.wnext, t'.hashtbl[d], t'.chains[d], t'.owner, d)
    {
      if d == b {
        HoldsMove(t.wnext, t.hashtbl[b], c, t.owner, b, k, e, FREE);
      } else {
        HoldsKept(t.wnext, t'.wnext, t.hashtbl[d], t.chains[d], t.owner, t'.owner, d);
      }
    }
    assert Indexed(t') by {
      hide Holds;
      assert t.db[t.whandle[n]] == n;
    }
  }

  // ---- ascending handle list ----

  ghost predicate Ascending(hs: seq<int>) {
    forall i, j :: 0 <= i < j < |hs| ==> hs[i] < hs[j]
  }

  // hs are the live handles in ascending order; succ gives the nxthndl entry of each.
  ghost predicate HandlesOk(hhead: int, succ: map<int, int>, hs: seq<int>) {
    && Ascending(hs) && hhead == Head(hs, NIL)
    && (forall i :: 0 <= i < |hs| ==> hs[i] >= 0 && hs[i] in succ)
    && (forall h :: h in succ ==> h in hs)
    && forall i {:trigger succ[hs[i]]} :: 0 <= i < |hs| ==> succ[hs[i]] == After(hs, i, NIL)
  }

  // The nxthndl entries by handle, read through the map.
  ghost function Succ(nxthndl: seq<int>, db: map<int, int>): map<int, int> {
    View(db, nxthndl)
  }

  // What a map from handles to slots makes of the contents of the slots.
  function View<W>(db: map<int, int>, payload: seq<W>): map<int, W> {
    map h | h in db && 0 <= db[h] < |payload| :: payload[db[h]]
  }

  lemma InView<W>(t: Table, payload: seq<W>)
    requires Indexed(t) && |payload| >= |t.owner|
    ensures forall h :: h in View(t.db, payload) <==> h in t.db
  {
  }

  lemma ViewNew<W>(db: map<int, int>, payload: seq<W>, h: int, n: int, w: W)
    requires 0 <= n < |payload| && forall g :: g in db ==> db[g] != n
    ensures View(db[h := n], payload[n := w]) == View(db, payload)[h := w]
  {
    var left, right := View(db[h := n], payload[n := w]), View(db, payload)[h := w];
    assert left.Keys == right.Keys;
    assert forall g :: g in left ==> left[g] == right[g];
  }

  lemma ViewWithout<W>(db: map<int, int>, payload: seq<W>, h: int)
    ensures View(db - {h}, payload) == View(db, payload) - {h}
    ensures h !in db ==> View(db, payload) - {h} == View(db, payload)
  {
    var left, right := View(db - {h}, payload), View(db, payload) - {h};
    assert forall g :: g in left <==> g in right;
    assert forall g :: g in left ==> left[g] == right[g];
  }

  lemma ViewExtended<W>(t: Table, payload: seq<W>, more: seq<W>)
    requires Indexed(t) && |payload| == |t.owner|
    ensures View(t.db, payload + more) == View(t.db, payload)
  {
    var left, right := View(t.db, payload + more), View(t.db, payload);
    InView(t, payload);
    InView(t, payload + more);
    assert forall g :: g in left <==> g in right;
    assert forall g :: g in left ==> left[g] == right[g];
  }

  lemma SuccWrite(t: Table, nxthndl: seq<int>, h: int, v: int)
    requires Indexed(t) && |nxthndl| == |t.owner| && h in t.db
    ensures Succ(nxthndl[t.db[h] := v], t.db) == Succ(nxthndl, t.db)[h := v]
  {
    forall g | g in t.db && g != h
      ensures t.db[g] != t.db[h]
    {
      assert t.whandle[t.db[g]] == g;
    }
  }

  // A slot that holds no window gets one.
  lemma SuccNew(t: Table, nxthndl: seq<int>, h: int, n: int, v: int)
    requires Indexed(t) && |nxthndl| == |t.owner| && 0 <= n < |t.owner| && t.owner[n] == FREE
    ensures Succ(nxthndl[n := v], t.db) == Succ(nxthndl, t.db)
    ensures Succ(nxthndl[n := v], t.db[h := n]) == Succ(nxthndl, t.db)[h := v]
  {
    assert forall g :: g in t.db ==> t.db[g] != n;
    assert forall g :: g in t.db ==> nxthndl[n := v][t.db[g]] == nxthndl[t.db[g]];
    assert Succ(nxthndl[n := v], t.db) == Succ(nxthndl, t.db);
    assert Succ(nxthndl[n := v], t.db[h := n]) == Succ(nxthndl, t.db)[h := v];
  }

  // The same write when a window has just been given the handle h and the slot n.
  lemma SuccWriteNamed(t: Table, nxthndl: seq<int>, g: int, h: int, n: int)
    requires Indexed(t) && |nxthndl| == |t.owner| && g in t.db && g != h
    requires 0 <= n < |t.owner| && t.owner[n] == FREE
    ensures Succ(nxthndl[t.db[g] := h], t.db[h := n]) == Succ(nxthndl, t.db[h := n])[g := h]
  {
    forall f | f in t.db && f != g
      ensures t.db[f] != t.db[g]
    {
      assert t.whandle[t.db[f]] == f;
    }
    assert t.db[g] != n;
    var left, right := Succ(nxthndl[t.db[g] := h], t.db[h := n]), Succ(nxthndl, t.db[h := n])[g := h];
    InView(t, nxthndl);
    assert left.Keys == right.Keys;
    forall f | f in left
      ensures left[f] == right[f]
    {
    }
  }

  function InsertedSucc(succ: map<int, int>, hs: seq<int>, h: int, k: nat): map<int, int>
    requires k <= |hs|
  {
    var next := succ[h := if k < |hs| then hs[k] else NIL];
    if k == 0 then next else next[hs[k - 1] := h]
  }

  // The handle h goes in at position k.
  lemma HandleInserted(hhead: int, succ: map<int, int>, hs: seq<int>, h: int, k: nat)
    requires HandlesOk(hhead, succ, hs) && k <= |hs| && h >= 0
    requires (k > 0 ==> hs[k - 1] < h) && (k < |hs| ==> h < hs[k])
    ensures HandlesOk(if k == 0 then h else hhead, InsertedSucc(succ, hs, h, k), Inserted(hs, k, h))
  {
    var hs', succ' := Inserted(hs, k, h), InsertedSucc(succ, hs, h, k);
    InsertedAscends(hs, k, h);
    forall i | 0 <= i < |hs'|
      ensures hs'[i] >= 0 && hs'[i] in succ' && succ'[hs'[i]] == After(hs', i, NIL)
    {
      HandleAfter(hhead, succ, hs, h, k, i);
    }
    forall g | g in succ'
      ensures g in hs'
    {
      InsertedMember(hs, k, h, g);
    }
    InsertedAt(hs, k, h, 0);
    assert Head(hs', NIL) == if k == 0 then h else hhead;
    hide Inserted, InsertedSucc, Ascending, After;
  }

  lemma InsertedAscends(hs: seq<int>, k: nat, h: int)
    requires Ascending(hs) && k <= |hs| && (k > 0 ==> hs[k - 1] < h) && (k < |hs| ==> h < hs[k])
    ensures Ascending(Inserted(hs, k, h))
  {
    var hs' := Inserted(hs, k, h);
    forall i, j | 0 <= i < j < |hs'|
      ensures hs'[i] < hs'[j]
    {
      InsertedAt(hs, k, h, i);
      InsertedAt(hs, k, h, j);
    }
    hide Inserted;
  }

  lemma HandleAfter(hhead: int, succ: map<int, int>, hs: seq<int>, h: int, k: nat, i: nat)
    requires HandlesOk(hhead, succ, hs) && k <= |hs| && h >= 0 && i <= |hs|
    requires (k > 0 ==> hs[k - 1] < h) && (k < |hs| ==> h < hs[k])
    ensures |Inserted(hs, k, h)| == |hs| + 1
    ensures
      var hs', succ' := Inserted(hs, k, h), InsertedSucc(succ, hs, h, k);
      hs'[i] >= 0 && hs'[i] in succ' && succ'[hs'[i]] == After(hs', i, NIL)
  {
    InsertedAt(hs, k, h, i);
    assert i < |hs| ==> hs[i] in succ && succ[hs[i]] == After(hs, i, NIL);
    assert i > 0 ==> hs[i - 1] in succ && succ[hs[i - 1]] == After(hs, i - 1, NIL);
    InsertedSuccAt(succ, hs, h, k, i);
    hide Inserted, InsertedSucc, After, Ascending;
  }

  lemma InsertedSuccAt(succ: map<int, int>, hs: seq<int>, h: int, k: nat, i: nat)
    requires Ascending(hs) && i <= |hs| && k <= |hs|
    requires (k > 0 ==> hs[k - 1] < h) && (k < |hs| ==> h < hs[k])
    requires i < |hs| ==> hs[i] in succ && succ[hs[i]] == After(hs, i, NIL)
    requires i > 0 ==> hs[i - 1] in succ && succ[hs[i - 1]] == After(hs, i - 1, NIL)
    ensures var g := Inserted(hs, k, h)[i];
      g in InsertedSucc(succ, hs, h, k) && InsertedSucc(succ, hs, h, k)[g] == After(Inserted(hs, k, h), i, NIL)
  {
    var d := Inserted(hs, k, h);
    InsertedAt(hs, k, h, i);
    if i < |hs| {
      InsertedAt(hs, k, h, i + 1);
    }
    hide Inserted;
    if i + 1 < k {
      assert hs[i] < hs[k - 1] < h;
      assert After(d, i, NIL) == After(hs, i, NIL);
    } else if i > k {
      assert hs[i - 1] >= hs[k] > h && (k > 0 ==> hs[i - 1] > hs[k - 1]);
      assert After(d, i, NIL) == After(hs, i - 1, NIL);
    }
  }

  lemma InsertedMember(c: seq<int>, k: nat, e: int, g: int)
    requires k <= |c|
    ensures g in Inserted(c, k, e) <==> g in c || g == e
  {
    assert c == c[..k] + c[k..];
  }

  function RemovedSucc(succ: map<int, int>, hs: seq<int>, k: nat): map<int, int>
    requires k < |hs| && hs[k] in succ
  {
    (if k == 0 then succ else succ[hs[k - 1] := succ[hs[k]]]) - {hs[k]}
  }

  // The handle at position k leaves the list.
  lemma HandleRemoved(hhead: int, succ: map<int, int>, hs: seq<int>, k: nat)
    requires HandlesOk(hhead, succ, hs) && k < |hs|
    ensures HandlesOk(if k == 0 then succ[hs[k]] else hhead, RemovedSucc(succ, hs, k), Without(hs, k))
  {
    var hs', succ' := Without(hs, k), RemovedSucc(succ, hs, k);
    assert succ[hs[k]] == After(hs, k, NIL);
    RemovedAscends(hs, k);
    forall i | 0 <= i < |hs'|
      ensures hs'[i] >= 0 && hs'[i] in succ' && succ'[hs'[i]] == After(hs', i, NIL)
    {
      HandleLeft(hhead, succ, hs, k, i);
    }
    forall g | g in succ'
      ensures g in hs'
    {
      WithoutMember(hs, k, g);
    }
    if |hs'| > 0 {
      WithoutAt(hs, k, 0);
    }
  }

  lemma RemovedAscends(hs: seq<int>, k: nat)
    requires Ascending(hs) && k < |hs|
    ensures Ascending(Without(hs, k))
  {
    var hs' := Without(hs, k);
    forall i, j | 0 <= i < j < |hs'|
      ensures hs'[i] < hs'[j]
    {
      WithoutAt(hs, k, i);
      WithoutAt(hs, k, j);
    }
    hide Without;
  }

  lemma HandleLeft(hhead: int, succ: map<int, int>, hs: seq<int>, k: nat, i: nat)
    requires HandlesOk(hhead, succ, hs) && k < |hs| && i + 1 < |hs|
    ensures |Without(hs, k)| == |hs| - 1
    ensures
      var hs', succ' := Without(hs, k), RemovedSucc(succ, hs, k);
      hs'[i] >= 0 && hs'[i] in succ' && succ'[hs'[i]] == After(hs', i, NIL)
  {
    WithoutAt(hs, k, i);
    assert succ[hs[k]] == After(hs, k, NIL);
    assert succ[hs[if i < k then i else i + 1]] == After(hs, if i < k then i else i + 1, NIL);
    RemovedSuccAt(succ, hs, k, i);
    hide Without, RemovedSucc, After, Ascending;
  }

  lemma RemovedSuccAt(succ: map<int, int>, hs: seq<int>, k: nat, i: nat)
    requires Ascending(hs) && k < |hs| && i + 1 < |hs| && hs[k] in succ && succ[hs[k]] == After(hs, k, NIL)
    requires var i0 := if i < k then i else i + 1; hs[i0] in succ && succ[hs[i0]] == After(hs, i0, NIL)
    ensures var g := Without(hs, k)[i];
      g in RemovedSucc(succ, hs, k) && RemovedSucc(succ, hs, k)[g] == After(Without(hs, k), i, NIL)
  {
    var d, i0 := Without(hs, k), if i < k then i else i + 1;
    WithoutAt(hs, k, i);
    if i + 2 < |hs| {
      WithoutAt(hs, k, i + 1);
    }
    hide Without;
    assert hs[i0] != hs[k] && (k > 0 && i0 != k - 1 ==> hs[i0] != hs[k - 1]);
    assert After(d, i, NIL) == if i0 + 1 == k then After(hs, k, NIL) else After(hs, i0, NIL);
  }

  /** The handle newhndl picks: nothing below it is free while handle 0 is live. */
  ghost predicate NewHandle(hs: seq<int>, h: int) {
    && h >= 0 && h !in hs
    && (0 in hs ==> forall g :: 0 <= g < h ==> g in hs)
    && (0 !in hs ==> h == if hs == [] then 0 else hs[0] - 1)
  }

  // 0..k are the first handles, and the next one, if any, leaves a gap.
  lemma GapFound(hs: seq<int>, k: nat)
    requires Ascending(hs) && k < |hs| && (forall i :: 0 <= i <= k ==> hs[i] == i)
    requires k + 1 < |hs| ==> hs[k + 1] - hs[k] > 1
    ensures NewHandle(hs, k + 1)
  {
    assert hs[0] in hs;
    assert forall i :: 0 <= i < |hs| ==> hs[i] != k + 1 by {
      assert forall i :: k < i < |hs| ==> hs[i] >= hs[k + 1];
    }
    forall g | 0 <= g < k + 1 ensures g in hs {
      assert hs[g] in hs;
    }
  }

  // ---- hash table and handle list together ----

  datatype Db = Db(t: Table, nxthndl: seq<int>, hhead: int, handles: seq<int>)

  ghost predicate DbOk(d: Db) {
    HashOk(d.t) && |d.nxthndl| == |d.t.owner| && HandlesOk(d.hhead, Succ(d.nxthndl, d.t.db), d.handles)
  }

  // The window in slot n has its handle and its place in the handle list, but is not in the hash table.
  ghost predicate NamedOk(d: Db, n: int) {
    && HashOk(d.t) && |d.nxthndl| == |d.t.owner|
    && 0 <= n < |d.t.owner| && d.t.owner[n] == FREE && d.t.whandle[n] >= 0 && d.t.whandle[n] !in d.t.db
    && HandlesOk(d.hhead, Succ(d.nxthndl, d.t.db[d.t.whandle[n] := n]), d.handles)
  }

  lemma DbExtendedOk(d: Db)
    requires DbOk(d)
    ensures DbOk(d.(t := Extended(d.t), nxthndl := d.nxthndl + seq(NUM_WIN, _ => NIL)))
  {
    ExtendedOk(d.t);
    ViewExtended(d.t, d.nxthndl, seq(NUM_WIN, _ => NIL));
  }

  function PutFirst(d: Db, n: int, h: int): Db
    requires 0 <= n < |d.t.whandle| == |d.nxthndl|
  {
    d.(t := d.t.(whandle := d.t.whandle[n := h]), nxthndl := d.nxthndl[n := d.hhead], hhead := h,
       handles := Inserted(d.handles, 0, h))
  }

  lemma PutFirstOk(d: Db, n: int, h: int)
    requires DbOk(d) && 0 <= n < |d.t.owner| && d.t.owner[n] == FREE
    requires h >= 0 && (d.handles != [] ==> h < d.handles[0])
    ensures |d.t.whandle| == |d.nxthndl| == |d.t.owner|
    ensures NamedOk(PutFirst(d, n, h), n)
  {
    FirstNotLive(d, h);
    RenamedOk(d.t, n, h);
    HandleInserted(d.hhead, Succ(d.nxthndl, d.t.db), d.handles, h, 0);
    SuccNew(d.t, d.nxthndl, h, n, d.hhead);
  }

  lemma FirstNotLive(d: Db, h: int)
    requires DbOk(d) && (d.handles != [] ==> h < d.handles[0])
    ensures h !in d.t.db
  {
    InView(d.t, d.nxthndl);
  }

  function PutAfter(d: Db, n: int, wp: int, k: nat): Db
    requires 0 <= n < |d.t.whandle| == |d.nxthndl| && 0 <= wp < |d.nxthndl| && k < |d.handles|
  {
    var h := d.handles[k] + 1;
    d.(t := d.t.(whandle := d.t.whandle[n := h]), nxthndl := d.nxthndl[n := d.nxthndl[wp]][wp := h],
       handles := Inserted(d.handles, k + 1, h))
  }

  lemma PutAfterOk(d: Db, n: int, wp: int, k: nat)
    requires DbOk(d) && 0 <= n < |d.t.owner| && d.t.owner[n] == FREE
    requires k < |d.handles| && d.handles[k] in d.t.db && wp == d.t.db[d.handles[k]]
    requires k + 1 < |d.handles| ==> d.handles[k] + 1 < d.handles[k + 1]
    ensures |d.t.whandle| == |d.nxthndl| == |d.t.owner| && 0 <= wp < |d.nxthndl| && d.t.whandle[wp] == d.handles[k]
    ensures NamedOk(PutAfter(d, n, wp, k), n)
  {
    hide HashOk, HandlesOk, Indexed, Inserted, InsertedSucc, After;
    BetweenNotLive(d, k);
    GapLinks(d, n, wp, k);
    GapInserted(d, k);
    RenamedOk(d.t, n, d.handles[k] + 1);
  }

  lemma GapInserted(d: Db, k: nat)
    requires DbOk(d) && k < |d.handles| && (k + 1 < |d.handles| ==> d.handles[k] + 1 < d.handles[k + 1])
    ensures HandlesOk(d.hhead, InsertedSucc(Succ(d.nxthndl, d.t.db), d.handles, d.handles[k] + 1, k + 1),
                      Inserted(d.handles, k + 1, d.handles[k] + 1))
  {
    hide HashOk, InsertedSucc, Inserted;
    assert d.handles[k] >= 0;
    hide HandlesOk;
    HandleInserted(d.hhead, Succ(d.nxthndl, d.t.db), d.handles, d.handles[k] + 1, k + 1);
  }

  lemma GapLinks(d: Db, n: int, wp: int, k: nat)
    requires DbOk(d) && 0 <= n < |d.t.owner| && d.t.owner[n] == FREE
    requires k < |d.handles| && d.handles[k] in d.t.db && wp == d.t.db[d.handles[k]]
    ensures |d.t.whandle| == |d.nxthndl| && 0 <= wp < |d.nxthndl| && d.t.whandle[wp] == d.handles[k] >= 0
    ensures forall h :: h in d.t.db ==> 0 <= d.t.db[h] < |d.nxthndl|
    ensures Succ(PutAfter(d, n, wp, k).nxthndl, d.t.db[d.handles[k] + 1 := n])
         == InsertedSucc(Succ(d.nxthndl, d.t.db), d.handles, d.handles[k] + 1, k + 1)
  {
    hide DbOk, Indexed, Succ;
    HandleLink(d, k);
    InRange(d);
    SuccGap(d.t, d.nxthndl, d.handles[k], d.handles[k] + 1, n, d.nxthndl[wp]);
  }

  // The slot n named h goes in behind the window with handle g.
  lemma SuccGap(t: Table, nxthndl: seq<int>, g: int, h: int, n: int, v: int)
    requires Indexed(t) && |nxthndl| == |t.owner| && g in t.db && g != h
    requires 0 <= n < |t.owner| && t.owner[n] == FREE
    ensures 0 <= t.db[g] < |nxthndl|
    ensures Succ(nxthndl[n := v][t.db[g] := h], t.db[h := n]) == Succ(nxthndl, t.db)[h := v][g := h]
  {
    SuccNew(t, nxthndl, h, n, v);
    SuccWriteNamed(t, nxthndl[n := v], g, h, n);
  }

  lemma InRange(d: Db)
    requires DbOk(d)
    ensures Indexed(d.t) && |d.t.whandle| == |d.nxthndl| == |d.t.owner|
    ensures forall h :: h in d.t.db ==> 0 <= d.t.db[h] < |d.nxthndl|
  {
  }

  lemma HandleLink(d: Db, k: nat)
    requires DbOk(d) && k < |d.handles| && d.handles[k] in d.t.db
    ensures d.handles[k] >= 0 && 0 <= d.t.db[d.handles[k]] < |d.nxthndl|
    ensures d.nxthndl[d.t.db[d.handles[k]]] == After(d.handles, k, NIL)
    ensures d.t.whandle[d.t.db[d.handles[k]]] == d.handles[k]
  {
    assert Succ(d.nxthndl, d.t.db)[d.handles[k]] == After(d.handles, k, NIL);
  }

  lemma BetweenNotLive(d: Db, k: nat)
    requires DbOk(d) && k < |d.handles|
    requires k + 1 < |d.handles| ==> d.handles[k] + 1 < d.handles[k + 1]
    ensures d.handles[k] + 1 !in d.t.db
  {
    LiveHandles(d, d.handles[k] + 1);
    assert forall i :: k < i < |d.handles| ==> d.handles[i] >= d.handles[k + 1];
    hide HashOk;
    assert forall i :: 0 <= i < |d.handles| ==> d.handles[i] != d.handles[k] + 1;
  }

  lemma DbStoredOk(d: Db, n: int)
    requires NamedOk(d, n)
    ensures DbOk(d.(t := Stored(d.t, n)))
  {
    StoredOk(d.t, n);
  }

  lemma DbRemovedOk(d: Db, b: nat, k: nat)
    requires DbOk(d) && b < HASHSIZ && k < |d.t.chains[b]|
    ensures InArena(d.t.chains[b], |d.t.wnext|)
    ensures NamedOk(d.(t := Removed(d.t, b, k)), d.t.chains[b][k])
    ensures Removed(d.t, b, k).owner == d.t.owner[d.t.chains[b][k] := FREE]
  {
    RemovedOk(d.t, b, k);
    var n := d.t.chains[b][k];
    assert Holds(d.t.wnext, d.t.hashtbl[b], d.t.chains[b], d.t.owner, b);
    assert d.t.owner[n] == b;
    assert (d.t.db - {d.t.whandle[n]})[d.t.whandle[n] := n] == d.t.db;
  }

  // The window in slot n, detached from the hash table, leaves the handle list at position i; p is the slot before it.
  lemma UnlistedOk(d: Db, n: int, i: nat, p: int)
    requires NamedOk(d, n) && i < |d.handles| && d.handles[i] == d.t.whandle[n]
    requires i > 0 ==> d.handles[i - 1] in d.t.db && p == d.t.db[d.handles[i - 1]]
    ensures i > 0 ==> 0 <= p < |d.nxthndl|
    ensures DbOk(d.(
      hhead := if i == 0 then d.nxthndl[n] else d.hhead,
      nxthndl := if i == 0 then d.nxthndl else d.nxthndl[p := d.nxthndl[n]],
      handles := Without(d.handles, i)))
  {
    var h := d.t.whandle[n];
    var succ := Succ(d.nxthndl, d.t.db[h := n]);
    HandleRemoved(d.hhead, succ, d.handles, i);
    hide HandlesOk, Holds;
    UnlistedSucc(d.t, d.nxthndl, n, h, if i > 0 then d.handles[i - 1] else h - 1, d.nxthndl[n]);
    assert RemovedSucc(succ, d.handles, i) ==
      Succ(if i == 0 then d.nxthndl else d.nxthndl[p := d.nxthndl[n]], d.t.db) by {
      if i > 0 {
        SuccWrite(d.t, d.nxthndl, d.handles[i - 1], d.nxthndl[n]);
      }
    }
  }

  lemma UnlistedSucc(t: Table, nxthndl: seq<int>, n: int, h: int, g: int, v: int)
    requires g != h && Indexed(t) && |nxthndl| == |t.owner| && 0 <= n < |t.owner| && h !in t.db
    ensures h in Succ(nxthndl, t.db[h := n]) && Succ(nxthndl, t.db[h := n])[h] == nxthndl[n]
    ensures Succ(nxthndl, t.db[h := n]) - {h} == Succ(nxthndl, t.db)
    ensures Succ(nxthndl, t.db[h := n])[g := v] - {h} == Succ(nxthndl, t.db)[g := v]
  {
    InView(t, nxthndl);
    var a, b := Succ(nxthndl, t.db[h := n]), Succ(nxthndl, t.db);
    assert forall g :: g in a <==> g in b || g == h;
    assert a - {h} == b;
    assert a[g := v] - {h} == (a - {h})[g := v];
  }

  // The window in slot chains[b][k] moves to the unused slot e, with its link in the handle list.
  lemma DbMovedOk<W>(d: Db, b: nat, k: nat, e: int, payload: seq<W>)
    requires |payload| == |d.t.owner| && DbOk(d) && b < HASHSIZ && k < |d.t.chains[b]| && 0 <= e < |d.t.owner|
    requires d.t.owner[e] == FREE
    ensures InArena(d.t.chains[b], |d.t.wnext|)
    ensures DbOk(d.(t := Moved(d.t, b, k, e), nxthndl := d.nxthndl[e := d.nxthndl[d.t.chains[b][k]]]))
    ensures View(Moved(d.t, b, k, e).db, payload[e := payload[d.t.chains[b][k]]]) == View(d.t.db, payload)
  {
    MovedOk(d.t, b, k, e);
    var n := d.t.chains[b][k];
    assert Holds(d.t.wnext, d.t.hashtbl[b], d.t.chains[b], d.t.owner, b);
    assert d.t.owner[n] == b;
    ViewMoved(d.t, d.nxthndl, n, e);
    ViewMoved(d.t, payload, n, e);
  }

  lemma ViewMoved<W>(t: Table, payload: seq<W>, n: int, e: int)
    requires Indexed(t) && |payload| == |t.owner| && 0 <= n < |t.owner| && t.owner[n] != FREE
    requires 0 <= e < |t.owner| && t.owner[e] == FREE
    ensures View(t.db[t.whandle[n] := e], payload[e := payload[n]]) == View(t.db, payload)
  {
    InView(t, payload);
    assert forall g :: g in t.db ==> t.db[g] != e;
    var left := View(t.db[t.whandle[n] := e], payload[e := payload[n]]);
    assert forall g :: g in left <==> g in t.db;
    assert t.db[t.whandle[n]] == n;
  }

  // The live handles are exactly the members of the handle list.
  lemma LiveHandles(d: Db, h: int)
    requires DbOk(d)
    ensures h in d.t.db <==> h in d.handles
  {
    InView(d.t, d.nxthndl);
  }

  // ---- memory blocks ----

  function Block(n: nat): nat { n / NUM_WIN }

  /** Every block but the last is full; only a lone block may be empty. */
  ghost predicate BlocksOk(used: seq<bool>, numused: seq<int>, blocks: seq<int>) {
    && |used| == |numused| * NUM_WIN
    && blocks != [] && InArena(blocks, |numused|) && Distinct(blocks)
    && (forall i {:trigger numused[blocks[i]]} :: 0 <= i < |blocks| ==>
          numused[blocks[i]] == Count(used, blocks[i] * NUM_WIN, blocks[i] * NUM_WIN + NUM_WIN))
    && (forall i :: 0 <= i < |blocks| - 1 ==> numused[blocks[i]] == NUM_WIN)
    && (|blocks| > 1 ==> numused[blocks[|blocks| - 1]] > 0)
    && forall n :: 0 <= n < |used| && used[n] ==> Block(n) in blocks
  }

  // A slot of the last block changes hands.
  lemma BlocksSet(used: seq<bool>, numused: seq<int>, blocks: seq<int>, n: nat, v: bool)
    requires BlocksOk(used, numused, blocks)
    requires n < |used| && used[n] != v && Block(n) == blocks[|blocks| - 1]
    requires !v && |blocks| > 1 ==> numused[Block(n)] > 1
    ensures BlocksOk(used[n := v], numused[Block(n) := numused[Block(n)] + if v then 1 else -1], blocks)
  {
    hide Count;
    var used', tail := used[n := v], Block(n);
    var numused' := numused[tail := numused[tail] + if v then 1 else -1];
    forall i | 0 <= i < |blocks|
      ensures numused'[blocks[i]] == Count(used', blocks[i] * NUM_WIN, blocks[i] * NUM_WIN + NUM_WIN)
      ensures i < |blocks| - 1 ==> numused'[blocks[i]] == NUM_WIN
    {
      SetCount(used, numused, blocks, n, v, i);
    }
    forall m | 0 <= m < |used'| && used'[m]
      ensures Block(m) in blocks
    {
      assert m != n ==> used[m];
    }
  }

  lemma SetCount(used: seq<bool>, numused: seq<int>, blocks: seq<int>, n: nat, v: bool, i: nat)
    requires BlocksOk(used, numused, blocks) && i < |blocks|
    requires n < |used| && used[n] != v && Block(n) == blocks[|blocks| - 1]
    ensures 0 <= blocks[i] < |numused| && (i < |blocks| - 1 ==> blocks[i] != Block(n) && numused[blocks[i]] == NUM_WIN)
    ensures Count(used[n := v], blocks[i] * NUM_WIN, blocks[i] * NUM_WIN + NUM_WIN)
         == numused[blocks[i]] + if i < |blocks| - 1 then 0 else if v then 1 else -1
  {
    hide Count;
    assert numused[blocks[i]] == Count(used, blocks[i] * NUM_WIN, blocks[i] * NUM_WIN + NUM_WIN);
    if i == |blocks| - 1 {
      CountSet(used, blocks[i] * NUM_WIN, blocks[i] * NUM_WIN + NUM_WIN, n, v);
    } else {
      CountSame(used, used[n := v], blocks[i] * NUM_WIN, blocks[i] * NUM_WIN + NUM_WIN);
    }
  }

  // A new block with its first slot taken, after the last one has filled up.
  lemma BlocksGrow(used: seq<bool>, numused: seq<int>, blocks: seq<int>)
    requires BlocksOk(used, numused, blocks) && numused[blocks[|blocks| - 1]] == NUM_WIN
    ensures BlocksOk((used + seq(NUM_WIN, _ => false))[|used| := true], numused + [1], blocks + [|numused|])
  {
    hide Count;
    var used', blocks', numused' := (used + seq(NUM_WIN, _ => false))[|used| := true], blocks + [|numused|],
      numused + [1];
    forall i | 0 <= i < |blocks'|
      ensures numused'[blocks'[i]] == Count(used', blocks'[i] * NUM_WIN, blocks'[i] * NUM_WIN + NUM_WIN)
    {
      if i < |blocks| {
        GrownCount(used, used', numused, blocks, i);
      } else {
        NewCount(used);
      }
    }
    forall n | 0 <= n < |used'| && used'[n]
      ensures Block(n) in blocks'
    {
      if n < |used| {
        assert Block(n) in blocks;
      } else {
        assert blocks'[|blocks|] == |numused|;
      }
    }
  }

  lemma GrownCount(used: seq<bool>, used': seq<bool>, numused: seq<int>, blocks: seq<int>, i: nat)
    requires BlocksOk(used, numused, blocks) && i < |blocks| && |used| <= |used'| && used'[..|used|] == used
    ensures 0 <= blocks[i] * NUM_WIN && blocks[i] * NUM_WIN + NUM_WIN <= |used|
    ensures 0 <= blocks[i] < |numused|
    ensures numused[blocks[i]] == Count(used', blocks[i] * NUM_WIN, blocks[i] * NUM_WIN + NUM_WIN)
  {
    hide Count;
    assert numused[blocks[i]] == Count(used, blocks[i] * NUM_WIN, blocks[i] * NUM_WIN + NUM_WIN);
    assert forall j :: 0 <= j < |used| ==> used'[j] == used'[..|used|][j];
    CountSame(used, used', blocks[i] * NUM_WIN, blocks[i] * NUM_WIN + NUM_WIN);
  }

  lemma NewCount(used: seq<bool>)
    ensures Count((used + seq(NUM_WIN, _ => false))[|used| := true], |used|, |used| + NUM_WIN) == 1
  {
    var grown := used + seq(NUM_WIN, _ => false);
    CountExtremes(grown, |used|, |used| + NUM_WIN);
    CountSet(grown, |used|, |used| + NUM_WIN, |used|, true);
  }

  // The last slot of the last of several blocks is given up, and the block with it.
  lemma BlocksDrop(used: seq<bool>, numused: seq<int>, blocks: seq<int>, n: nat)
    requires BlocksOk(used, numused, blocks) && |blocks| > 1
    requires n < |used| && used[n] && Block(n) == blocks[|blocks| - 1] && numused[Block(n)] == 1
    ensures BlocksOk(used[n := false], numused[Block(n) := 0], blocks[..|blocks| - 1])
  {
    hide Count;
    var used', tail, rest := used[n := false], Block(n), blocks[..|blocks| - 1];
    forall i | 0 <= i < |rest|
      ensures numused[tail := 0][rest[i]] == Count(used', rest[i] * NUM_WIN, rest[i] * NUM_WIN + NUM_WIN)
      ensures numused[tail := 0][rest[i]] == NUM_WIN
    {
      OtherCount(used, numused, blocks, n, i);
    }
    forall m | 0 <= m < |used'| && used'[m]
      ensures Block(m) in rest
    {
      TailEmptied(used, numused, blocks, n);
      assert Block(m) in blocks && blocks == rest + [tail];
    }
  }

  lemma OtherCount(used: seq<bool>, numused: seq<int>, blocks: seq<int>, n: nat, i: nat)
    requires BlocksOk(used, numused, blocks) && n < |used| && Block(n) == blocks[|blocks| - 1] && i < |blocks| - 1
    ensures blocks[i] != Block(n) && numused[blocks[i]] == NUM_WIN
    ensures numused[blocks[i]] == Count(used[n := false], blocks[i] * NUM_WIN, blocks[i] * NUM_WIN + NUM_WIN)
  {
    assert numused[blocks[i]] == Count(used, blocks[i] * NUM_WIN, blocks[i] * NUM_WIN + NUM_WIN);
    CountSame(used, used[n := false], blocks[i] * NUM_WIN, blocks[i] * NUM_WIN + NUM_WIN);
  }

  lemma TailEmptied(used: seq<bool>, numused: seq<int>, blocks: seq<int>, n: nat)
    requires BlocksOk(used, numused, blocks)
    requires n < |used| && used[n] && Block(n) == blocks[|blocks| - 1] && numused[Block(n)] == 1
    ensures forall m :: 0 <= m < |used| && used[n := false][m] ==> Block(m) != Block(n)
  {
    var lo, tail := Block(n) * NUM_WIN, blocks[|blocks| - 1];
    assert numused[blocks[|blocks| - 1]] == Count(used, tail * NUM_WIN, tail * NUM_WIN + NUM_WIN);
    CountSet(used, lo, lo + NUM_WIN, n, false);
    CountExtremes(used[n := false], lo, lo + NUM_WIN);
  }

  // A slot is marked used exactly when it holds a window; slot n, if it is one, is marked in advance.
  ghost predicate SlotsOk(used: seq<bool>, owner: seq<int>, numused: seq<int>, blocks: seq<int>, n: int) {
    && |used| == |owner| && BlocksOk(used, numused, blocks)
    && (0 <= n < |used| ==> used[n] && owner[n] == FREE)
    && forall m :: 0 <= m < |used| && m != n ==> (used[m] <==> owner[m] != FREE)
  }

  lemma SlotsTake(used: seq<bool>, owner: seq<int>, numused: seq<int>, blocks: seq<int>, n: nat)
    requires SlotsOk(used, owner, numused, blocks, NIL)
    requires n < |used| && !used[n] && Block(n) == blocks[|blocks| - 1]
    ensures 0 <= Block(n) < |numused|
    ensures SlotsOk(used[n := true], owner, numused[Block(n) := numused[Block(n)] + 1], blocks, n)
  {
    assert 0 <= Block(n) < |numused|;
    hide BlocksOk;
    BlocksSet(used, numused, blocks, n, true);
  }

  lemma SlotsGrow(used: seq<bool>, owner: seq<int>, numused: seq<int>, blocks: seq<int>)
    requires SlotsOk(used, owner, numused, blocks, NIL) && blocks != []
    requires 0 <= blocks[|blocks| - 1] < |numused| && numused[blocks[|blocks| - 1]] == NUM_WIN
    ensures SlotsOk((used + seq(NUM_WIN, _ => false))[|used| := true], owner + seq(NUM_WIN, _ => FREE),
                    numused + [1], blocks + [|numused|], |used|)
  {
    hide BlocksOk;
    BlocksGrow(used, numused, blocks);
  }

  lemma SlotsFill(used: seq<bool>, owner: seq<int>, numused: seq<int>, blocks: seq<int>, n: nat, b: int)
    requires SlotsOk(used, owner, numused, blocks, n) && n < |used| && b != FREE
    ensures SlotsOk(used, owner[n := b], numused, blocks, NIL)
  {
  }

  // A window's slot is marked when it leaves the table.
  lemma SlotsMark(used: seq<bool>, owner: seq<int>, numused: seq<int>, blocks: seq<int>, n: nat)
    requires SlotsOk(used, owner, numused, blocks, NIL) && n < |used| && owner[n] != FREE
    ensures SlotsOk(used, owner[n := FREE], numused, blocks, n)
  {
  }

  // The marked slot n takes over the window of slot m, which is marked in its place.
  lemma SlotsSwap(used: seq<bool>, owner: seq<int>, numused: seq<int>, blocks: seq<int>, n: nat, m: nat)
    requires SlotsOk(used, owner, numused, blocks, n) && n < |used| && m < |used| && used[m] && m != n
    ensures SlotsOk(used, owner[n := owner[m]][m := FREE], numused, blocks, m)
  {
  }

  // The marked slot of the last block is given up; a last block left empty is dropped unless it is the only one.
  lemma SlotsRelease(used: seq<bool>, owner: seq<int>, numused: seq<int>, blocks: seq<int>, n: nat)
    requires SlotsOk(used, owner, numused, blocks, n) && n < |used| && Block(n) == blocks[|blocks| - 1]
    ensures 0 <= Block(n) < |numused| && numused[Block(n)] > 0
    ensures var left := numused[Block(n)] - 1;
      SlotsOk(used[n := false], owner, numused[Block(n) := left],
              if left == 0 && |blocks| > 1 then blocks[..|blocks| - 1] else blocks, NIL)
  {
    TailCounted(used, numused, blocks, n);
    if numused[Block(n)] == 1 && |blocks| > 1 {
      BlocksDrop(used, numused, blocks, n);
    } else {
      BlocksSet(used, numused, blocks, n, false);
    }
  }

  lemma TailCounted(used: seq<bool>, numused: seq<int>, blocks: seq<int>, n: nat)
    requires BlocksOk(used, numused, blocks) && n < |used| && used[n] && Block(n) == blocks[|blocks| - 1]
    ensures 0 <= Block(n) < |numused| && numused[Block(n)] > 0
  {
    var lo, tail := Block(n) * NUM_WIN, blocks[|blocks| - 1];
    assert numused[blocks[|blocks| - 1]] == Count(used, tail * NUM_WIN, tail * NUM_WIN + NUM_WIN);
    CountExtremes(used, lo, lo + NUM_WIN);
  }

  // A block that is not the last means there are several, so the last one is not empty.
  lemma TailInUse(used: seq<bool>, numused: seq<int>, blocks: seq<int>, n: nat)
    requires BlocksOk(used, numused, blocks) && n < |used| && used[n] && Block(n) != blocks[|blocks| - 1]
    ensures var lo := blocks[|blocks| - 1] * NUM_WIN;
      lo + NUM_WIN <= |used| && exists m :: lo <= m < lo + NUM_WIN && used[m]
  {
    var tail := blocks[|blocks| - 1];
    assert numused[blocks[|blocks| - 1]] == Count(used, tail * NUM_WIN, tail * NUM_WIN + NUM_WIN);
    CountExtremes(used, tail * NUM_WIN, tail * NUM_WIN + NUM_WIN);
  }
}
