/** The line editor of the console (cgets of bdos/console.c) and the column it keeps track of. */
module Terminal {

  const TAB := 0x09
  const CR := 0x0d
  const LF := 0x0a
  const BS := 0x08
  const RUB := 0x7f
  const CTRLR := 0x12
  const CTRLU := 0x15
  const CTRLX := 0x18
  const SPACE := 0x20

  type Byte = c: int | 0 <= c < 256

  // What the device shows: the characters of the current line, the cursor, and the lines above.
  datatype Term = Term(line: seq<Byte>, cur: nat, above: seq<seq<Byte>>)

  // The character at a column; nothing printed there yet shows as a blank.
  function Cell(t: Term, j: nat): Byte {
    if j < |t.line| then t.line[j] else SPACE
  }

  // A line with the character at column j replaced.
  function Put(line: seq<Byte>, j: nat, ch: Byte): seq<Byte> {
    if j < |line| then line[j := ch] else line + seq(j - |line|, _ => SPACE) + [ch]
  }

  // What a character does to the device.
  function Typed(t: Term, ch: Byte): Term {
    if ch >= SPACE then t.(line := Put(t.line, t.cur, ch), cur := t.cur + 1)
    else if ch == CR then t.(cur := 0)
    else if ch == BS then t.(cur := if t.cur > 0 then t.cur - 1 else 0)
    else if ch == LF then t.(line := [], above := t.above + [t.line])
    else t
  }

  lemma TypedCell(t: Term, ch: Byte, j: nat)
    ensures ch >= SPACE ==> Cell(Typed(t, ch), j) == if j == t.cur then ch else Cell(t, j)
    ensures ch == CR || ch == BS ==> Cell(Typed(t, ch), j) == Cell(t, j)
    ensures ch == LF ==> Cell(Typed(t, ch), j) == SPACE
  {
  }

  // ---- what a line of input looks like ----

  function TabStop(col: nat): nat { col + 8 - col % 8 }

  // The cells one character takes when it is printed at a column.
  function Cells(ch: Byte, col: nat): (s: seq<Byte>)
    ensures s != [] && forall i :: 0 <= i < |s| ==> s[i] >= SPACE
  {
    if ch == TAB then seq(8 - col % 8, _ => SPACE)
    else if ch < SPACE then ['^' as int, ch + 0x40]
    else [ch]
  }

  /** A tab is blank up to the next multiple of eight; a control character is a caret and the letter of its key. */
  lemma CellsAre(ch: Byte, col: nat)
    ensures ch == TAB ==>
      && 0 < |Cells(ch, col)| <= 8 && (col + |Cells(ch, col)|) % 8 == 0
      && forall i :: 0 <= i < |Cells(ch, col)| ==> Cells(ch, col)[i] == SPACE
    ensures ch < SPACE && ch != TAB ==> Cells(ch, col) == ['^' as int, '@' as int + ch]
    ensures ch >= SPACE ==> Cells(ch, col) == [ch]
  {
  }

  // The cells of a whole buffer that starts at a column.
  function Rendered(buf: seq<Byte>, col: nat): (s: seq<Byte>)
    ensures forall i :: 0 <= i < |s| ==> s[i] >= SPACE
    ensures |s| >= |buf|
  {
    if buf == [] then []
    else
      var s := Rendered(buf[..|buf| - 1], col);
      s + Cells(buf[|buf| - 1], col + |s|)
  }

  lemma RenderedMore(buf: seq<Byte>, ch: Byte, col: nat)
    ensures Rendered(buf + [ch], col) == Rendered(buf, col) + Cells(ch, col + |Rendered(buf, col)|)
  {
    hide Cells, Rendered;
    var most := buf + [ch];
    assert most[..|most| - 1] == buf && most[|most| - 1] == ch;
    RenderedStep(most, col);
  }

  lemma RenderedStep(buf: seq<Byte>, col: nat)
    requires buf != []
    ensures
      var s := Rendered(buf[..|buf| - 1], col);
      Rendered(buf, col) == s + Cells(buf[|buf| - 1], col + |s|)
  {
    hide Cells;
  }

  lemma RenderedPrefix(buf: seq<Byte>, k: nat, col: nat)
    requires k < |buf|
    ensures Rendered(buf[..k + 1], col) == Rendered(buf[..k], col) + Cells(buf[k], col + |Rendered(buf[..k], col)|)
  {
    assert buf[..k + 1] == buf[..k] + [buf[k]];
    RenderedMore(buf[..k], buf[k], col);
  }

  lemma OneLess(buf: seq<Byte>, n: nat, k: nat, col: nat)
    requires k <= n <= |buf| && n <= k + 1
    ensures Rendered(buf[..k], col) <= Rendered(buf[..n], col)
  {
    hide Rendered;
    if k < n {
      RenderedPrefix(buf, k, col);
    }
  }

  // From column col on, the line shows exactly the cells s, and the cursor stands behind them.
  ghost predicate Shows(t: Term, col: nat, s: seq<Byte>) {
    && t.cur == col + |s|
    && forall j: nat :: j >= col ==> Cell(t, j) == if j - col < |s| then s[j - col] else SPACE
  }

  lemma ShowsMore(t: Term, col: nat, s: seq<Byte>, ch: Byte)
    requires Shows(t, col, s) && ch >= SPACE
    ensures Shows(Typed(t, ch), col, s + [ch])
  {
    forall j: nat | j >= col
      ensures Cell(Typed(t, ch), j) == if j - col < |s + [ch]| then (s + [ch])[j - col] else SPACE
    {
      TypedCell(t, ch, j);
    }
  }

  /** Backspace, blank, backspace: the last cell is gone. */
  lemma ShowsLess(t: Term, col: nat, s: seq<Byte>)
    requires Shows(t, col, s) && s != []
    ensures Shows(Typed(Typed(Typed(t, BS), SPACE), BS), col, s[..|s| - 1])
  {
    var t1 := Typed(t, BS);
    var t2 := Typed(t1, SPACE);
    var t3 := Typed(t2, BS);
    assert t3.cur == col + |s| - 1;
    forall j: nat | j >= col
      ensures Cell(t3, j) == if j - col < |s| - 1 then s[j - col] else SPACE
    {
      TypedCell(t, BS, j);
      TypedCell(t1, SPACE, j);
      TypedCell(t2, BS, j);
    }
  }

  // ---- the editor as a function of the keys ----

  datatype Edit = Edit(buf: seq<Byte>, done: bool)

  // One key; maxlen has room for it.
  function Key(buf: seq<Byte>, ch: Byte): Edit {
    if ch == CR || ch == LF then Edit(buf, true)
    else if ch == BS || ch == RUB then Edit(if buf == [] then [] else buf[..|buf| - 1], false)
    else if ch == CTRLX || ch == CTRLU then Edit([], false)
    else if ch == CTRLR then Edit(buf, false)
    else Edit(buf + [ch], false)
  }

  // The keys typed so far; those after the end of the line are not read.
  function Edited(keys: seq<Byte>, maxlen: nat): (e: Edit)
    ensures |e.buf| <= maxlen
  {
    if keys == [] then Edit([], false)
    else
      var e := Edited(keys[..|keys| - 1], maxlen);
      if e.done || |e.buf| == maxlen then e else Key(e.buf, keys[|keys| - 1])
  }

  lemma EditedMore(keys: seq<Byte>, i: nat, maxlen: nat)
    requires i < |keys|
    ensures
      var e := Edited(keys[..i], maxlen);
      Edited(keys[..i + 1], maxlen) == if e.done || |e.buf| == maxlen then e else Key(e.buf, keys[i])
  {
    assert keys[..i + 1][..i] == keys[..i];
  }

  // e is what a key makes of a line.
  predicate AfterKey(buf: seq<Byte>, ch: Byte, e: Edit) {
    && (ch in {BS, RUB} ==> !e.done && (buf == [] ==> e.buf == []) && (buf != [] ==> e.buf + [buf[|buf| - 1]] == buf))
    && (ch in {CTRLX, CTRLU} ==> !e.done && e.buf == [])
    && (ch == CTRLR ==> !e.done && e.buf == buf)
    && (ch in {CR, LF} ==> e.done && e.buf == buf)
    && (ch !in {BS, RUB, CTRLX, CTRLU, CTRLR, CR, LF} ==> !e.done && e.buf == buf + [ch])
  }

  lemma KeyIs(buf: seq<Byte>, ch: Byte)
    ensures AfterKey(buf, ch, Key(buf, ch))
  {
  }

  /** What a key does to a line that is not complete. */
  lemma NextKey(keys: seq<Byte>, ch: Byte, maxlen: nat)
    requires !Edited(keys, maxlen).done && |Edited(keys, maxlen).buf| < maxlen
    ensures AfterKey(Edited(keys, maxlen).buf, ch, Edited(keys + [ch], maxlen))
  {
    hide Edited, Key, AfterKey;
    KeyIs(Edited(keys, maxlen).buf, ch);
    var most := keys + [ch];
    assert most[..|keys|] == keys && most[..|keys| + 1] == most && most[|keys|] == ch;
    EditedMore(most, |keys|, maxlen);
  }

  /** Once the line is complete, further keys change nothing. */
  lemma {:induction false} EditedEnd(keys: seq<Byte>, i: nat, maxlen: nat)
    requires i <= |keys| && (Edited(keys[..i], maxlen).done || |Edited(keys[..i], maxlen).buf| == maxlen)
    ensures Edited(keys, maxlen) == Edited(keys[..i], maxlen)
    decreases |keys|
  {
    if i < |keys| {
      var most := keys[..|keys| - 1];
      assert most[..i] == keys[..i];
      EditedEnd(most, i, maxlen);
    } else {
      assert keys[..i] == keys;
    }
  }

  /** Typing a line without editing keys yields the line. */
  lemma {:induction false} PlainLine(keys: seq<Byte>, maxlen: nat)
    requires |keys| <= maxlen
    requires forall i :: 0 <= i < |keys| ==> keys[i] !in {CR, LF, BS, RUB, CTRLX, CTRLU, CTRLR}
    ensures Edited(keys, maxlen) == Edit(keys, false)
  {
    if keys != [] {
      var most := keys[..|keys| - 1];
      PlainLine(most, maxlen);
      assert keys == most + [keys[|keys| - 1]];
    }
  }
}

module LineEditor {
  import opened Terminal

  class Console {
    var glbcolumn: int     // the column the console believes the cursor is in
    ghost var term: Term   // the device behind Bconout

    // The column is the one the cursor is in.
    ghost predicate Valid()
      reads this
    {
      glbcolumn == term.cur
    }

    method Conout(ch: Byte)
      requires Valid()
      modifies this
      ensures term == Typed(old(term), ch)
      ensures glbcolumn ==
        old(glbcolumn) + (if ch >= SPACE then 1 else if ch == CR then -old(glbcolumn) else if ch == BS then -1 else 0)
      ensures Valid() <==> ch != BS || old(glbcolumn) > 0
    {
      term := Typed(term, ch);
      if ch >= SPACE {
        glbcolumn := glbcolumn + 1;
      } else if ch == CR {
        glbcolumn := 0;
      } else if ch == BS {
        glbcolumn := glbcolumn - 1;
      }
    }

    // Text on the screen, one more printable character.
    method Print(ch: Byte, ghost col: nat, ghost s: seq<Byte>)
      requires Valid() && ch >= SPACE
      modifies this
      ensures Valid() && glbcolumn == old(glbcolumn) + 1 && term.above == old(term.above)
      ensures old(Shows(term, col, s)) ==> Shows(term, col, s + [ch])
    {
      if Shows(term, col, s) {
        ShowsMore(term, col, s, ch);
      }
      Conout(ch);
    }

    /** Blanks up to the next multiple of 8 for a tab; every other character as it is. */
    method Tabout(ch: Byte, ghost col: nat, ghost s: seq<Byte>)
      requires Valid()
      modifies this
      ensures ch == TAB || ch >= SPACE ==>
        Valid() && glbcolumn == if ch == TAB then TabStop(old(glbcolumn)) else old(glbcolumn) + 1
      ensures ch == TAB || ch >= SPACE ==> term.above == old(term.above)
      ensures ch == TAB ==> old(glbcolumn) < glbcolumn <= old(glbcolumn) + 8 && glbcolumn % 8 == 0
      ensures ch == TAB || ch >= SPACE ==>
        (old(Shows(term, col, s)) ==> Shows(term, col, s + Cells(ch, col + |s|)))
      ensures ch != TAB ==> term == Typed(old(term), ch) && (Valid() <==> ch != BS || old(glbcolumn) > 0)
    {
      if ch == TAB {
        ghost var c0, n := glbcolumn, 1;
        Print(SPACE, col, s);
        assert s + [SPACE] == s + seq(n, _ => SPACE);
        while glbcolumn % 8 != 0
          invariant Valid() && glbcolumn == c0 + n && 1 <= n <= 8 - c0 % 8 && term.above == old(term.above)
          invariant old(Shows(term, col, s)) ==> Shows(term, col, s + seq(n, _ => SPACE))
          decreases 8 - c0 % 8 - n
        {
          Print(SPACE, col, s + seq(n, _ => SPACE));
          assert s + seq(n, _ => SPACE) + [SPACE] == s + seq(n + 1, _ => SPACE);
          n := n + 1;
        }
        assert n == 8 - c0 % 8;
      } else {
        if ch >= SPACE && Shows(term, col, s) {
          ShowsMore(term, col, s, ch);
        }
        Conout(ch);
      }
    }

    /** Tabs expanded, control characters as a caret and a letter. */
    method Cookdout(ch: Byte, ghost col: nat, ghost s: seq<Byte>)
      requires Valid()
      modifies this
      ensures Valid() && glbcolumn == old(glbcolumn) + |Cells(ch, old(glbcolumn))| && term.above == old(term.above)
      ensures old(Shows(term, col, s)) ==> Shows(term, col, s + Cells(ch, col + |s|))
    {
      hide Shows;
      if ch == TAB {
        Tabout(ch, col, s);
      } else {
        var c := ch;
        ghost var s' := s;
        if ch < SPACE {
          Print('^' as int, col, s);
          s' := s + ['^' as int];
          c := ch + 0x40;
        }
        Print(c, col, s');
        assert s' + [c] == s + Cells(ch, col + |s|);
      }
    }

    /** A new line that is blank up to the starting column. */
    method Newline(startcol: nat)
      requires Valid()
      modifies this
      ensures Valid() && Shows(term, startcol, []) && glbcolumn == startcol
      ensures term.above == old(term.above) + [old(term.line)]
    {
      Conout(CR);
      Conout(LF);
      var n: nat := startcol;
      while n != 0
        invariant Valid() && n <= startcol && glbcolumn == startcol - n
        invariant term.above == old(term.above) + [old(term.line)]
        invariant forall j: nat :: Cell(term, j) == SPACE
      {
        ghost var t := term;
        Conout(SPACE);
        n := n - 1;
        forall j: nat
          ensures Cell(term, j) == SPACE
        {
          TypedCell(t, SPACE, j);
        }
      }
    }

    // The column behind the first n characters, as backsp computes it.
    method Column(cbuf: array<Byte>, n: nat, startcol: nat) returns (col: int)
      requires n <= cbuf.Length
      ensures col == startcol + |Rendered(cbuf[..n], startcol)|
    {
      hide Rendered;
      RenderedNone(startcol);
      assert cbuf[..0] == [];
      col := startcol;
      var i, p := n, 0;
      while i != 0
        invariant p + i == n && i >= 0 && p >= 0
        invariant col == startcol + |Rendered(cbuf[..p], startcol)|
        decreases i
      {
        i := i - 1;
        var ch := cbuf[p];
        RenderedPrefix(cbuf[..], p, startcol);
        assert cbuf[..][..p] == cbuf[..p] && cbuf[..][..p + 1] == cbuf[..p + 1];
        p := p + 1;
        if ch == TAB {
          col := col + 8;
          col := col - col % 8;
        } else if ch < SPACE {
          col := col + 2;
        } else {
          col := col + 1;
        }
      }
    }

    /** Takes the last character off the line, and its cells off the screen. */
    method Backsp(cbuf: array<Byte>, len: nat, startcol: nat) returns (retlen: nat)
      requires Valid() && len <= cbuf.Length
      requires glbcolumn == startcol + |Rendered(cbuf[..len], startcol)|
      modifies this
      ensures Valid() && term.above == old(term.above) && retlen == if len == 0 then 0 else len - 1
      ensures glbcolumn == startcol + |Rendered(cbuf[..retlen], startcol)|
      ensures old(Shows(term, startcol, Rendered(cbuf[..len], startcol))) ==>
        Shows(term, startcol, Rendered(cbuf[..retlen], startcol))
    {
      hide Shows, Rendered;
      retlen := len;
      if retlen != 0 {
        retlen := retlen - 1;
      }
      var col := Column(cbuf, retlen, startcol);
      ghost var s := Rendered(cbuf[..len], startcol);
      assert cbuf[..][..len] == cbuf[..len] && cbuf[..][..retlen] == cbuf[..retlen];
      OneLess(cbuf[..], len, retlen, startcol);
      assert s[..col - startcol] == Rendered(cbuf[..retlen], startcol);
      EraseTo(col, startcol, s);
    }

    // Backspaces until the cursor is in the column.
    method EraseTo(col: int, ghost startcol: nat, ghost s: seq<Byte>)
      requires Valid() && startcol <= col <= glbcolumn == startcol + |s|
      modifies this
      ensures Valid() && glbcolumn == col && term.above == old(term.above)
      ensures old(Shows(term, startcol, s)) ==> Shows(term, startcol, s[..col - startcol])
    {
      hide Shows;
      ghost var n := |s|;
      assert s[..n] == s;
      while glbcolumn > col
        invariant Valid() && startcol <= col <= glbcolumn == startcol + n && n <= |s| && term.above == old(term.above)
        invariant old(Shows(term, startcol, s)) ==> Shows(term, startcol, s[..n])
        decreases glbcolumn
      {
        if Shows(term, startcol, s[..n]) {
          ShowsLess(term, startcol, s[..n]);
          assert s[..n][..n - 1] == s[..n - 1];
        }
        Conout(BS);
        Conout(SPACE);
        Conout(BS);
        n := n - 1;
      }
    }

    /**
     Reads a line. keys are the characters getch delivers; when they run out, the editor waits for the next one, so the
     contract holds at every iteration. The buffer is what the pure editor makes of the keys, the column is the width
     of the buffer from the starting column, and that is what the screen shows. A carriage return leaves the text.
     */
    method Cgets(keys: seq<Byte>, maxlen: nat, buf: array<Byte>) returns (retlen: nat)
      requires Valid() && maxlen <= buf.Length
      modifies this, buf
      ensures Valid() && retlen <= maxlen && old(term.above) <= term.above
      ensures buf[..retlen] == Edited(keys, maxlen).buf
      ensures
        var s := Rendered(buf[..retlen], old(glbcolumn));
        && glbcolumn == (if Edited(keys, maxlen).done then 0 else old(glbcolumn) + |s|)
        && (old(Shows(term, term.cur, [])) ==> Shows(term.(cur := old(glbcolumn) + |s|), old(glbcolumn), s))
    {
      hide Shows, Rendered, Edited;
      var stcol := glbcolumn;
      var next := 0;
      retlen := 0;
      EditedNone(maxlen);
      RenderedNone(stcol);
      assert buf[..0] == [] && keys[..0] == [];
      assert old(Shows(term, term.cur, [])) ==> Shows(term, stcol, []);
      while retlen < maxlen && next < |keys|
        invariant Valid() && retlen <= maxlen && 0 <= next <= |keys| && old(term.above) <= term.above
        invariant Edited(keys[..next], maxlen) == Edit(buf[..retlen], false)
        invariant glbcolumn == stcol + |Rendered(buf[..retlen], stcol)|
        invariant old(Shows(term, term.cur, [])) ==> Shows(term, stcol, Rendered(buf[..retlen], stcol))
        decreases |keys| - next
      {
        var ch := keys[next];
        EditedMore(keys, next, maxlen);
        next := next + 1;
        if ch == CR || ch == LF {
          ghost var t := term;
          Conout(CR);
          assert t == term.(cur := stcol + |Rendered(buf[..retlen], stcol)|);
          EditedEnd(keys, next, maxlen);
          return;
        }
        retlen := Keystroke(ch, buf, retlen, stcol);
      }
      if retlen == maxlen {
        EditedEnd(keys, next, maxlen);
      } else {
        assert keys[..next] == keys;
      }
      assert term == term.(cur := glbcolumn);
    }

    /** One key other than the end of the line. */
    method Keystroke(ch: Byte, buf: array<Byte>, len: nat, stcol: nat) returns (retlen: nat)
      requires Valid() && len < buf.Length && ch != CR && ch != LF
      requires glbcolumn == stcol + |Rendered(buf[..len], stcol)|
      modifies this, buf
      ensures Valid() && retlen <= len + 1
      ensures buf[..retlen] == Key(old(buf[..len]), ch).buf
      ensures glbcolumn == stcol + |Rendered(buf[..retlen], stcol)|
      ensures old(Shows(term, stcol, Rendered(buf[..len], stcol))) || ch == CTRLR ==>
        Shows(term, stcol, Rendered(buf[..retlen], stcol))
      ensures term.above ==
        if ch in {CTRLU, CTRLR} then old(term.above) + [Put(old(term.line), old(term.cur), '#' as int)]
        else old(term.above)
    {
      hide Shows, Rendered, Put;
      RenderedNone(stcol);
      assert buf[..0] == [];
      ghost var was := buf[..len];
      retlen := len;
      if ch == BS || ch == RUB {
        retlen := Backsp(buf, retlen, stcol);
        assert buf[..retlen] == if was == [] then [] else was[..|was| - 1];
      } else if ch == CTRLX {
        retlen := Erase(buf, retlen, stcol);
      } else if ch == CTRLU {
        Conout('#' as int);
        Newline(stcol);
        retlen := 0;
      } else if ch == CTRLR {
        Redisplay(buf, retlen, stcol);
      } else {
        buf[retlen] := ch;
        RenderedMore(was, ch, stcol);
        Cookdout(ch, stcol, Rendered(was, stcol));
        retlen := retlen + 1;
        assert buf[..retlen] == was + [ch];
      }
    }

    /** ctrl-X: backspaces over the whole line. */
    method Erase(buf: array<Byte>, len: nat, stcol: nat) returns (retlen: nat)
      requires Valid() && len <= buf.Length
      requires glbcolumn == stcol + |Rendered(buf[..len], stcol)|
      modifies this
      ensures Valid() && retlen == 0 && glbcolumn == stcol && term.above == old(term.above)
      ensures old(Shows(term, stcol, Rendered(buf[..len], stcol))) ==> Shows(term, stcol, [])
    {
      RenderedNone(stcol);
      assert buf[..0] == [];
      hide Shows, Rendered;
      retlen := Backsp(buf, len, stcol);
      while retlen != 0
        invariant Valid() && retlen <= len && term.above == old(term.above)
        invariant glbcolumn == stcol + |Rendered(buf[..retlen], stcol)|
        invariant old(Shows(term, stcol, Rendered(buf[..len], stcol))) ==>
          Shows(term, stcol, Rendered(buf[..retlen], stcol))
      {
        retlen := Backsp(buf, retlen, stcol);
      }
    }

    /** ctrl-R: the line once more, below. */
    method Redisplay(buf: array<Byte>, retlen: nat, stcol: nat)
      requires Valid() && retlen <= buf.Length
      modifies this
      ensures Valid() && glbcolumn == stcol + |Rendered(buf[..retlen], stcol)|
      ensures Shows(term, stcol, Rendered(buf[..retlen], stcol))
      ensures term.above == old(term.above) + [Put(old(term.line), old(term.cur), '#' as int)]
    {
      hide Rendered;
      Conout('#' as int);
      Newline(stcol);
      RenderedNone(stcol);
      hide Shows, Cells;
      ghost var b := buf[..retlen];
      assert b[..0] == [] && b[..retlen] == b;
      for i := 0 to retlen
        invariant Valid() && glbcolumn == stcol + |Rendered(b[..i], stcol)|
        invariant Shows(term, stcol, Rendered(b[..i], stcol))
        invariant term.above == old(term.above) + [Put(old(term.line), old(term.cur), '#' as int)]
      {
        RenderedPrefix(b, i, stcol);
        Cookdout(buf[i], stcol, Rendered(b[..i], stcol));
      }
    }
  }

  lemma EditedNone(maxlen: nat)
    ensures Edited([], maxlen) == Edit([], false)
  {
  }

  lemma RenderedNone(col: nat)
    ensures Rendered([], col) == []
  {
  }
}
