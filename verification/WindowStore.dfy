/** Creation, search and deletion of window structures (aes/newwmlib.c). */
module WindowStore {
  import opened Chains
  import opened SlotCount
  import opened Geometry
  import opened Windows
  import opened WindowTable

  class WindowDb {
    var used: seq<bool>
    var whandle: seq<int>
    var wnext: seq<int>
    var nxthndl: seq<int>
    var payload: seq<Window>  // everything else in the structure
    var numused: seq<int>
    var blocks: seq<int>      // the blocks from wmhead to wmtail
    var hashtbl: seq<int>
    var hhead: int
    ghost var owner: seq<int>
    ghost var chains: seq<seq<int>>
    ghost var db: map<int, int>
    ghost var handles: seq<int>

    ghost function D(): Db
      reads this`whandle, this`wnext, this`nxthndl, this`hashtbl, this`hhead, this`owner, this`chains, this`db,
        this`handles
    {
      Db(Table(whandle, wnext, hashtbl, owner, chains, db), nxthndl, hhead, handles)
    }

    // The map tells where each live window is; slot n, if it is one, has been set aside for a new window.
    ghost predicate ValidBut(n: int)
      reads this
    {
      && |payload| == |owner| && DbOk(D()) && SlotsOk(used, owner, numused, blocks, n)
    }

    // Hash chains, handle list and blocks agree on one finite map.
    ghost predicate Valid()
      reads this
    {
      ValidBut(NIL)
    }

    // wm_start: one block of unused slots.
    constructor ()
      ensures Valid() && Contents() == map[] && handles == [] && hhead == NIL
    {
      used := seq(NUM_WIN, _ => false);
      whandle, wnext, nxthndl := seq(NUM_WIN, _ => NIL), seq(NUM_WIN, _ => NIL), seq(NUM_WIN, _ => NIL);
      payload := seq(NUM_WIN, _ => NoWindow());
      numused, blocks := [0], [0];
      hashtbl, hhead := seq(HASHSIZ, _ => NIL), NIL;
      owner, chains, db, handles := seq(NUM_WIN, _ => FREE), seq(HASHSIZ, _ => []), map[], [];
      new;
      CountExtremes(used, 0, NUM_WIN);
    }

    ghost function Contents(): map<int, Window>
      reads this`db, this`payload
    {
      View(db, payload)
    }

    /** srchwp finds precisely the live window with the handle. */
    method SrchWp(handle: int) returns (wp: int)
      requires HashOk(D().t)
      ensures wp == if handle in db then db[handle] else NIL
    {
      wp := NIL;
      if handle >= 0 {
        var bucket := handle % HASHSIZ;
        ghost var c, i := chains[bucket], 0;
        assert Holds(wnext, hashtbl[bucket], c, owner, bucket);
        assert handle in db ==> db[handle] in c;
        wp := hashtbl[bucket];
        while wp != NIL && whandle[wp] != handle
          invariant 0 <= i <= |c| && wp == if i < |c| then c[i] else NIL
          invariant forall j :: 0 <= j < i ==> whandle[c[j]] != handle
          decreases |c| - i
        {
          assert wnext[c[i]] == After(c, i, NIL);
          wp, i := wnext[wp], i + 1;
        }
        assert wp != NIL ==> owner[c[i]] == bucket;
      }
    }

    // newwp: a slot of the last block, or of a new one if that is full.
    method NewWp() returns (wp: int)
      requires Valid()
      modifies this
      ensures ValidBut(wp) && 0 <= wp < |used| && db == old(db) && handles == old(handles)
      ensures Contents() == old(Contents())
    {
      if numused[blocks[|blocks| - 1]] == NUM_WIN {
        wp := AddBlock();
      } else {
        wp := FirstFree();
        SlotsTake(used, owner, numused, blocks, wp);
        hide BlocksOk, DbOk, SlotsOk;
        numused := numused[Block(wp) := numused[Block(wp)] + 1];
        used := used[wp := true];
      }
    }

    method FirstFree() returns (wp: nat)
      requires BlocksOk(used, numused, blocks) && numused[blocks[|blocks| - 1]] != NUM_WIN
      ensures wp < |used| && !used[wp] && Block(wp) == blocks[|blocks| - 1]
    {
      hide BlocksOk;
      TailRoom();
      var tail := blocks[|blocks| - 1];
      ghost var lo := tail * NUM_WIN;
      wp := tail * NUM_WIN;
      while used[wp]
        invariant lo <= wp < lo + NUM_WIN
        invariant forall i :: lo <= i < wp ==> used[i]
        decreases lo + NUM_WIN - wp
      {
        wp := wp + 1;
      }
    }

    // A block that is not full has an unused slot.
    lemma TailRoom()
      requires BlocksOk(used, numused, blocks) && numused[blocks[|blocks| - 1]] != NUM_WIN
      ensures blocks != [] && 0 <= blocks[|blocks| - 1]
      ensures
        var lo := blocks[|blocks| - 1] * NUM_WIN;
        lo + NUM_WIN <= |used| && exists i :: lo <= i < lo + NUM_WIN && !used[i]
    {
      var tail := blocks[|blocks| - 1];
      CountExtremes(used, tail * NUM_WIN, tail * NUM_WIN + NUM_WIN);
    }

    method AddBlock() returns (wp: int)
      requires Valid() && numused[blocks[|blocks| - 1]] == NUM_WIN
      modifies this
      ensures ValidBut(wp) && 0 <= wp < |used| && db == old(db) && handles == old(handles)
      ensures Contents() == old(Contents())
    {
      hide View, HandlesOk;
      SlotsGrow(used, owner, numused, blocks);
      ViewExtended(D().t, payload, seq(NUM_WIN, _ => NoWindow()));
      hide BlocksOk, HashOk, SlotsOk, DbOk;
      DbExtendedOk(D());
      ghost var d := D().(t := Extended(D().t), nxthndl := nxthndl + seq(NUM_WIN, _ => NIL));
      wp := |used|;
      used := (used + seq(NUM_WIN, _ => false))[wp := true];
      whandle := whandle + seq(NUM_WIN, _ => NIL);
      wnext := wnext + seq(NUM_WIN, _ => NIL);
      nxthndl := nxthndl + seq(NUM_WIN, _ => NIL);
      payload := payload + seq(NUM_WIN, _ => NoWindow());
      owner := owner + seq(NUM_WIN, _ => FREE);
      blocks := blocks + [|numused|];
      numused := numused + [1];
      assert D() == d;
    }

    /** newhndl: while handle 0 is live the new handle is the least one not in use. */
    method NewHndl(nwp: int) returns (h: int)
      requires ValidBut(nwp) && 0 <= nwp < |used|
      modifies this`whandle, this`nxthndl, this`hhead, this`handles
      ensures NamedOk(D(), nwp) && whandle[nwp] == h && NewHandle(old(handles), h)
    {
      hide DbOk, HashOk, HandlesOk, SlotsOk, NamedOk;
      FreeSlot(nwp);
      if hhead == NIL {
        h := 0;
        FirstPut(nwp, h);
      } else if hhead != 0 {
        h := hhead - 1;
        FirstPut(nwp, h);
      } else {
        var wp;
        ghost var k;
        wp, k := FindGap();
        GapFound(handles, k);
        h := GapPut(nwp, wp, k);
      }
    }

    lemma FreeSlot(n: int)
      requires ValidBut(n) && 0 <= n < |used|
      ensures 0 <= n < |owner| && owner[n] == FREE
      ensures hhead == Head(handles, NIL) && Ascending(handles) && forall i :: 0 <= i < |handles| ==> handles[i] >= 0
    {
    }

    method FirstPut(nwp: int, h: int)
      requires DbOk(D()) && 0 <= nwp < |owner| && owner[nwp] == FREE && h >= 0 && (handles != [] ==> h < handles[0])
      modifies this`whandle, this`nxthndl, this`hhead, this`handles
      ensures NamedOk(D(), nwp) && whandle[nwp] == h
    {
      hide DbOk, HashOk, HandlesOk, NamedOk;
      PutFirstOk(D(), nwp, h);
      ghost var d := PutFirst(D(), nwp, h);
      nxthndl := nxthndl[nwp := hhead];
      whandle := whandle[nwp := h];
      hhead := h;
      handles := Inserted(handles, 0, h);
      assert D() == d;
    }

    method GapPut(nwp: int, wp: int, ghost k: nat) returns (h: int)
      requires DbOk(D()) && 0 <= nwp < |owner| && owner[nwp] == FREE
      requires k < |handles| && handles[k] in db && wp == db[handles[k]]
      requires k + 1 < |handles| ==> handles[k] + 1 < handles[k + 1]
      modifies this`whandle, this`nxthndl, this`hhead, this`handles
      ensures NamedOk(D(), nwp) && whandle[nwp] == h && h == old(handles)[k] + 1
    {
      hide DbOk, HashOk, HandlesOk, NamedOk;
      PutAfterOk(D(), nwp, wp, k);
      ghost var d := PutAfter(D(), nwp, wp, k);
      h := whandle[wp] + 1;
      nxthndl := nxthndl[nwp := nxthndl[wp]];
      nxthndl := nxthndl[wp := h];
      whandle := whandle[nwp := h];
      handles := Inserted(handles, k + 1, h);
      assert D() == d;
    }

    method FindGap() returns (wp: int, ghost k: nat)
      requires DbOk(D()) && hhead == 0
      ensures k < |handles| && handles[k] in db && wp == db[handles[k]]
      ensures (forall i :: 0 <= i <= k ==> handles[i] == i) && (k + 1 < |handles| ==> handles[k + 1] - handles[k] > 1)
    {
      assert handles != [] && handles[0] == 0;
      k := 0;
      LinkAt(k);
      hide HashOk, HandlesOk;
      wp := SrchWp(hhead);
      var found := false;
      while nxthndl[wp] != NIL && !found
        invariant k < |handles| && handles[k] in db && wp == db[handles[k]] && 0 <= wp < |nxthndl|
        invariant nxthndl[wp] == After(handles, k, NIL)
        invariant forall i :: 0 <= i <= k ==> handles[i] == i
        invariant found ==> k + 1 < |handles| && handles[k + 1] - handles[k] > 1
        decreases |handles| - k, !found
      {
        LinkAt(k + 1);
        var nxtwp := SrchWp(nxthndl[wp]);
        if whandle[nxtwp] - whandle[wp] > 1 {
          found := true;
        } else {
          wp, k := nxtwp, k + 1;
        }
      }
    }

    lemma LinkAt(k: nat)
      requires DbOk(D()) && k < |handles|
      ensures handles[k] >= 0 && handles[k] in db && 0 <= db[handles[k]] < |nxthndl| == |whandle|
      ensures whandle[db[handles[k]]] == handles[k] && nxthndl[db[handles[k]]] == After(handles, k, NIL)
    {
      assert Succ(nxthndl, db)[handles[k]] == After(handles, k, NIL);
    }

    // storewp: the window becomes reachable under its handle.
    method StoreWp(wp: int)
      requires NamedOk(D(), wp)
      modifies this`wnext, this`hashtbl, this`owner, this`chains, this`db
      ensures DbOk(D()) && owner == old(owner)[wp := whandle[wp] % HASHSIZ] && db == old(db)[whandle[wp] := wp]
    {
      DbStoredOk(D(), wp);
      ghost var d := D().(t := Stored(D().t, wp));
      hide HandlesOk, Holds;
      var bucket := whandle[wp] % HASHSIZ;
      owner := owner[wp := bucket];
      chains := chains[bucket := [wp] + chains[bucket]];
      db := db[whandle[wp] := wp];
      wnext := wnext[wp := hashtbl[bucket]];
      hashtbl := hashtbl[bucket := wp];
      assert D() == d;
    }

    /** wm_create: a new closed window under a new handle; every other window is as it was. */
    method Create(kind: Kind) returns (handle: int)
      requires Valid()
      modifies this
      ensures Valid() && NewHandle(old(handles), handle) && handle !in old(db)
      ensures Contents() == old(Contents())[handle := FreshWindow(kind)]
    {
      hide DbOk, NewHandle, SlotsOk, NamedOk, View;
      var wp := NewWp();
      UnusedSlot(wp);
      handle := NewHndl(wp);
      NewlyNamed(wp);
      ghost var db0, payload0, owner0 := db, payload, owner;
      payload := payload[wp := FreshWindow(kind)];
      StoreWp(wp);
      SlotsFill(used, owner0, numused, blocks, wp, owner[wp]);
      ViewNew(db0, payload0, handle, wp, FreshWindow(kind));
    }

    lemma NewlyNamed(wp: int)
      requires NamedOk(D(), wp)
      ensures 0 <= wp < |owner| && wp < |whandle| && whandle[wp] >= 0 && whandle[wp] !in db
    {
    }

    lemma UnusedSlot(n: int)
      requires ValidBut(n) && 0 <= n < |used|
      ensures forall h :: h in db ==> 0 <= db[h] < |payload| && db[h] != n
    {
    }

    // Take the window out of its hash chain.
    method Unhash(handle: int, wp: int)
      requires DbOk(D()) && handle in db && wp == db[handle]
      modifies this`wnext, this`hashtbl, this`owner, this`chains, this`db
      ensures NamedOk(D(), wp) && whandle[wp] == handle && db == old(db) - {handle}
      ensures owner == old(owner)[wp := FREE]
    {
      hide DbOk, NamedOk, HashOk, HandlesOk, Chain;
      InTable(handle);
      var bucket := handle % HASHSIZ;
      ghost var c, k := OnChain(wp);
      FirstOfChain(wnext, hashtbl[bucket], c, k);
      DbRemovedOk(D(), bucket, k);
      ghost var t := Removed(D().t, bucket, k);
      if hashtbl[bucket] == wp {
        hashtbl := hashtbl[bucket := wnext[wp]];
      } else {
        var wp1 := Predecessor(hashtbl[bucket], wp, c, k);
        wnext := wnext[wp1 := wnext[wp]];
      }
      owner, chains, db := owner[wp := FREE], chains[bucket := Without(c, k)], db - {handle};
      assert D().t == t;
    }

    lemma InTable(handle: int)
      requires DbOk(D()) && handle in db
      ensures handle >= 0 && 0 <= db[handle] < |owner| == |whandle| && whandle[db[handle]] == handle
      ensures owner[db[handle]] == handle % HASHSIZ != FREE
    {
    }

    lemma FirstOfChain(next: seq<int>, head: int, c: seq<int>, k: nat)
      requires Chain(next, head, c) && k < |c|
      ensures head == c[k] <==> k == 0
    {
    }

    // The node before position k of a chain.
    method Predecessor(head: int, wp: int, ghost c: seq<int>, ghost k: nat) returns (wp1: int)
      requires Chain(wnext, head, c) && 0 < k < |c| && c[k] == wp
      ensures wp1 == c[k - 1]
    {
      wp1 := head;
      ghost var i := 0;
      while wnext[wp1] != wp
        invariant 0 <= i < k && wp1 == c[i]
        decreases k - i
      {
        assert wnext[c[i]] == After(c, i, NIL);
        wp1, i := wnext[wp1], i + 1;
      }
      assert wnext[c[i]] == After(c, i, NIL);
    }

    // Take the window's handle out of the handle list; the walk uses the hash table, which no longer has the window.
    method Unlist(handle: int, wp: int)
      requires NamedOk(D(), wp) && whandle[wp] == handle
      modifies this`nxthndl, this`hhead, this`handles
      ensures DbOk(D())
    {
      ghost var i := HandleAt(wp);
      if handle == hhead {
        UnlistedOk(D(), wp, i, NIL);
        hhead := nxthndl[wp];
      } else {
        var wp1 := HandleBefore(handle, wp, i);
        UnlistedOk(D(), wp, i, wp1);
        nxthndl := nxthndl[wp1 := nxthndl[wp]];
      }
      hide HashOk, HandlesOk;
      handles := Without(handles, i);
    }

    lemma HandleAt(wp: int) returns (i: nat)
      requires NamedOk(D(), wp)
      ensures i < |handles| && handles[i] == whandle[wp] && (i == 0 <==> whandle[wp] == hhead)
    {
      var h := whandle[wp];
      InView(D().t, nxthndl);
      assert h in Succ(nxthndl, db[h := wp]);
      i :| 0 <= i < |handles| && handles[i] == h;
    }

    method HandleBefore(handle: int, wp: int, ghost i: nat) returns (wp1: int)
      requires NamedOk(D(), wp) && whandle[wp] == handle && 0 < i < |handles| && handles[i] == handle
      ensures handles[i - 1] in db && wp1 == db[handles[i - 1]]
    {
      ghost var j: nat := 0;
      NamedLink(wp, i, j);
      hide HandlesOk, Holds;
      wp1 := SrchWp(hhead);
      while nxthndl[wp1] != handle
        invariant j < i && handles[j] in db && wp1 == db[handles[j]] && 0 <= wp1 < |nxthndl|
        invariant nxthndl[wp1] == handles[j + 1]
        decreases i - j
      {
        NamedLink(wp, i, j + 1);
        wp1 := SrchWp(nxthndl[wp1]);
        j := j + 1;
      }
      NamedLink(wp, i, j + 1);
    }

    // Before its position i, the detached handle leaves the list readable.
    lemma NamedLink(wp: int, i: nat, j: nat)
      requires NamedOk(D(), wp) && i < |handles| && handles[i] == whandle[wp]
      ensures hhead == handles[0]
      ensures j < i ==> handles[j] in db && 0 <= db[handles[j]] < |nxthndl| && nxthndl[db[handles[j]]] == handles[j + 1]
      ensures i < j < |handles| ==> handles[j] != handles[i]
      ensures j < i ==> handles[j] != handles[i]
    {
      var h := whandle[wp];
      InView(D().t, nxthndl);
      if j < i {
        assert handles[j] in Succ(nxthndl, db[h := wp]);
        assert Succ(nxthndl, db[h := wp])[handles[j]] == After(handles, j, NIL);
      }
    }

    // The first used slot of the last block.
    method FirstUsed() returns (wp1: nat)
      requires blocks != [] && 0 <= blocks[|blocks| - 1]
      requires var lo := blocks[|blocks| - 1] * NUM_WIN;
        lo + NUM_WIN <= |used| && exists m :: lo <= m < lo + NUM_WIN && used[m]
      ensures wp1 < |used| && used[wp1] && Block(wp1) == blocks[|blocks| - 1]
    {
      var lo := blocks[|blocks| - 1] * NUM_WIN;
      ghost var m :| lo <= m < lo + NUM_WIN && used[m];
      wp1 := lo;
      while !used[wp1]
        invariant lo <= wp1 <= m
        decreases m - wp1
      {
        wp1 := wp1 + 1;
      }
    }

    // Copy the window in slot wp1 to the vacant slot wp, and redirect its hash chain.
    method MoveWindow(wp1: int, wp: int)
      requires DbOk(D()) && |payload| == |owner| && 0 <= wp1 < |owner| && owner[wp1] != FREE
      requires 0 <= wp < |owner| && owner[wp] == FREE
      modifies this`whandle, this`wnext, this`nxthndl, this`payload, this`hashtbl, this`owner, this`chains, this`db
      ensures DbOk(D()) && |payload| == |owner| && Contents() == old(Contents())
      ensures owner == old(owner)[wp := old(owner)[wp1]][wp1 := FREE]
    {
      hide DbOk, HashOk, HandlesOk, Linked, View;
      ghost var c, k := OnChain(wp1);
      var bucket := whandle[wp1] % HASHSIZ;
      DbMovedOk(D(), bucket, k, wp, payload);
      ChainBeside(wnext, hashtbl[bucket], c, wp, wnext[wp1]);
      ghost var d := D().(t := Moved(D().t, bucket, k, wp), nxthndl := nxthndl[wp := nxthndl[wp1]]);
      ghost var b := owner[wp1];
      db := db[whandle[wp1] := wp];
      whandle := whandle[wp := whandle[wp1]];
      wnext := wnext[wp := wnext[wp1]];
      nxthndl := nxthndl[wp := nxthndl[wp1]];
      payload := payload[wp := payload[wp1]];
      RelinkChain(bucket, wp1, wp, c, k);
      owner := owner[wp := b][wp1 := FREE];
      chains := chains[bucket := c[k := wp]];
      assert D() == d;
    }

    lemma OnChain(n: int) returns (c: seq<int>, k: nat)
      requires DbOk(D()) && 0 <= n < |owner| && owner[n] != FREE
      ensures whandle[n] >= 0 && owner[n] == whandle[n] % HASHSIZ && |hashtbl| == |chains| == HASHSIZ
      ensures c == chains[owner[n]] && k < |c| && c[k] == n && Chain(wnext, hashtbl[owner[n]], c)
      ensures |wnext| == |whandle| == |nxthndl| == |owner| && InArena(c, |owner|)
      ensures forall e :: e in c ==> owner[e] == owner[n]
    {
      c := chains[owner[n]];
      assert Holds(wnext, hashtbl[owner[n]], c, owner, owner[n]);
      assert db[whandle[n]] == n;
      k :| 0 <= k < |c| && c[k] == n;
    }

    method RelinkChain(bucket: int, wp1: int, wp: int, ghost c: seq<int>, ghost k: nat)
      requires 0 <= bucket < |hashtbl| && k < |c| && c[k] == wp1 && wp !in c && 0 <= wp < |wnext|
      requires Chain(wnext, hashtbl[bucket], c)
      modifies this`wnext, this`hashtbl
      ensures wnext == if k == 0 then old(wnext) else old(wnext)[c[k - 1] := wp]
      ensures hashtbl == if k == 0 then old(hashtbl)[bucket := wp] else old(hashtbl)
    {
      if hashtbl[bucket] == wp1 {
        assert k == 0;
        hashtbl := hashtbl[bucket := wp];
      } else {
        var wp2 := Predecessor(hashtbl[bucket], wp1, c, k);
        wnext := wnext[wp2 := wp];
      }
    }

    lemma ChainBeside(next: seq<int>, head: int, c: seq<int>, e: int, v: int)
      requires Chain(next, head, c) && 0 <= e < |next| && e !in c
      ensures Chain(next[e := v], head, c)
    {
      assert forall i :: 0 <= i < |c| ==> c[i] in c;
    }

    // Give up a slot of the last block, and the block if that empties it.
    method ReleaseSlot(n: int)
      requires 0 <= n < |used| && blocks != [] && SlotsOk(used, owner, numused, blocks, n)
      requires Block(n) == blocks[|blocks| - 1]
      modifies this`used, this`numused, this`blocks
      ensures SlotsOk(used, owner, numused, blocks, NIL)
    {
      hide SlotsOk, BlocksOk;
      SlotsRelease(used, owner, numused, blocks, n);
      var wmtail := blocks[|blocks| - 1];
      used := used[n := false];
      numused := numused[wmtail := numused[wmtail] - 1];
      if numused[wmtail] == 0 && |blocks| > 1 {
        blocks := blocks[..|blocks| - 1];
      }
    }

    lemma TailOf(n: int)
      requires SlotsOk(used, owner, numused, blocks, n)
      ensures blocks != [] && |used| == |owner|
    {
    }

    method SlotToMove(wp: int) returns (wp1: int)
      requires 0 <= wp < |used| && SlotsOk(used, owner, numused, blocks, wp) && blocks != []
      requires Block(wp) != blocks[|blocks| - 1]
      ensures 0 <= wp1 < |used| == |owner| && used[wp1] && wp1 != wp && owner[wp1] != FREE && owner[wp] == FREE
      ensures Block(wp1) == blocks[|blocks| - 1]
    {
      TailInUse(used, numused, blocks, wp);
      wp1 := FirstUsed();
    }

    // The gap left in a block that is not the last is filled with a window of the last block.
    method Compact(wp: int)
      requires DbOk(D()) && |payload| == |owner| && 0 <= wp < |used| && SlotsOk(used, owner, numused, blocks, wp)
      modifies this
      ensures Valid() && Contents() == old(Contents()) && handles == old(handles)
    {
      hide DbOk, SlotsOk, View;
      TailOf(wp);
      if Block(wp) != blocks[|blocks| - 1] {
        var wp1 := SlotToMove(wp);
        SlotsSwap(used, owner, numused, blocks, wp, wp1);
        MoveWindow(wp1, wp);
        ReleaseSlot(wp1);
      } else {
        ReleaseSlot(wp);
      }
    }

    lemma LiveSlot(handle: int)
      requires Valid()
      ensures handle in db ==> 0 <= db[handle] < |owner| == |used| && owner[db[handle]] != FREE
    {
    }

    /** wm_delete: the window disappears from the map; every other window stays, wherever it is moved. */
    method Delete(handle: int) returns (ok: bool)
      requires Valid()
      modifies this
      ensures Valid() && ok == (handle in old(db))
      ensures Contents() == old(Contents()) - {handle}
    {
      hide HashOk, HandlesOk, SlotsOk, View;
      LiveSlot(handle);
      var wp := SrchWp(handle);
      ok := wp != NIL;
      ViewWithout(db, payload, handle);
      if ok {
        SlotsMark(used, owner, numused, blocks, wp);
        hide DbOk;
        Unhash(handle, wp);
        Unlist(handle, wp);
        Compact(wp);
      }
    }
  }
}
