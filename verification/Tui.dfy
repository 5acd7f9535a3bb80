/** The editor of `tui.rs` as it runs: texts in UTF-8, the cursor and the mark byte offsets into
    them. Every slice has to fall on character boundaries, as Rust's does; each operation
    refines its meaning in `Editor`. */
module Tui {
  import opened Strings
  import opened Utf8
  import opened Editor

  // ----- slices and splices -----

  /** `&s[lo..hi]`. */
  function Slice(s: string, lo: nat, hi: nat): string
    requires Boundary(s, lo) && Boundary(s, hi) && lo <= hi
  {
    IndexOrder(s, hi, lo);
    s[Index(s, lo)..Index(s, hi)]
  }

  /** `String::insert_str`. */
  function InsertStr(s: string, at: nat, t: string): string
    requires Boundary(s, at)
  {
    s[..Index(s, at)] + t + s[Index(s, at)..]
  }

  /** `String::replace_range` with nothing. */
  function RemoveRange(s: string, lo: nat, hi: nat): string
    requires Boundary(s, lo) && Boundary(s, hi) && lo <= hi
  {
    IndexOrder(s, hi, lo);
    s[..Index(s, lo)] + s[Index(s, hi)..]
  }

  /** `r` has `t` at the position `i`, and before it what `s` has. */
  predicate HoldsAt(s: string, i: nat, t: string, r: string) {
    && i <= |s| && i + |t| <= |r|
    && (forall m :: 0 <= m < i ==> r[m] == s[m])
    && forall m :: 0 <= m < |t| ==> r[i + m] == t[m]
  }

  lemma InsertedIsHeld(s: string, i: nat, t: string)
    requires i <= |s|
    ensures HoldsAt(s, i, t, s[..i] + t + s[i..])
  {
  }

  /** The offset after an inserted text is a boundary again. */
  lemma InsertEndsOnBoundary(s: string, i: nat, t: string, r: string, n: nat)
    requires HoldsAt(s, i, t, r) && n == Offset(s, i) + Len(t)
    ensures Boundary(r, n) && Index(r, n) == i + |t|
  {
    OffsetOfPrefix(r, s, i);
    OffsetShift(r, i, t, |t|);
    IndexOfOffset(r, i + |t|);
  }

  lemma RemoveKeepsBoundary(s: string, lo: nat, hi: nat)
    requires Boundary(s, lo) && Boundary(s, hi) && lo <= hi
    ensures var r := RemoveRange(s, lo, hi);
      Boundary(r, lo) && Index(r, lo) == Index(s, lo)
  {
    IndexOrder(s, hi, lo);
    var i, r := Index(s, lo), RemoveRange(s, lo, hi);
    OffsetOfPrefix(r, s, i);
    IndexOfOffset(r, i);
  }

  // ----- motions -----

  /** The boundary just left of `cursor`. */
  function PrevBoundary(s: string, cursor: nat): (to: nat)
    requires Boundary(s, cursor)
    ensures to <= cursor && Boundary(s, to)
    ensures Index(s, to) == if Index(s, cursor) == 0 then 0 else Index(s, cursor) - 1
  {
    EndsAreBoundaries(s);
    var before := Slice(s, 0, cursor);
    if before == [] then cursor else
      IndexOfOffset(s, Index(s, cursor) - 1);
      cursor - Width(before[|before| - 1])
  }

  /** The boundary just right of `cursor`. */
  function NextBoundary(s: string, cursor: nat): (to: nat)
    requires Boundary(s, cursor)
    ensures cursor <= to && Boundary(s, to)
    ensures Index(s, to) == Min(Index(s, cursor) + 1, |s|)
  {
    EndsAreBoundaries(s);
    IndexOrder(s, Len(s), cursor);
    var after := Slice(s, cursor, Len(s));
    if after == [] then cursor else
      IndexOfOffset(s, Index(s, cursor) + 1);
      cursor + Width(after[0])
  }

  /** The character right of a boundary, and the one left of it. */
  function CharAt(s: string, at: nat): (c: Option<char>)
    requires Boundary(s, at)
  {
    if Index(s, at) < |s| then Some(s[Index(s, at)]) else None
  }

  function CharBefore(s: string, at: nat): (c: Option<char>)
    requires Boundary(s, at)
  {
    if Index(s, at) > 0 then Some(s[Index(s, at) - 1]) else None
  }

  /** One of the two loops the forward word motions are made of. */
  method SkipForward(s: string, cursor: nat, white: bool) returns (i: nat)
    requires Boundary(s, cursor)
    ensures Boundary(s, i) && Index(s, i) == Over(s, Index(s, cursor), white)
  {
    i := cursor;
    while CharAt(s, i).Some? && IsWhite(CharAt(s, i).value) == white
      invariant Boundary(s, i) && Over(s, Index(s, i), white) == Over(s, Index(s, cursor), white)
      decreases |s| - Index(s, i)
    {
      i := NextBoundary(s, i);
    }
  }

  method SkipBackward(s: string, cursor: nat, white: bool) returns (i: nat)
    requires Boundary(s, cursor)
    ensures Boundary(s, i) && Index(s, i) == BackOver(s, Index(s, cursor), white)
  {
    i := cursor;
    while CharBefore(s, i).Some? && IsWhite(CharBefore(s, i).value) == white
      invariant Boundary(s, i) && BackOver(s, Index(s, i), white) == BackOver(s, Index(s, cursor), white)
      decreases Index(s, i)
    {
      i := PrevBoundary(s, i);
    }
  }

  method WordLeftFrom(s: string, cursor: nat) returns (i: nat)
    requires Boundary(s, cursor)
    ensures Boundary(s, i) && Index(s, i) == WordLeftOf(s, Index(s, cursor))
  {
    i := SkipBackward(s, cursor, true);
    i := SkipBackward(s, i, false);
  }

  method WordRightFrom(s: string, cursor: nat) returns (i: nat)
    requires Boundary(s, cursor)
    ensures Boundary(s, i) && Index(s, i) == WordRightOf(s, Index(s, cursor))
  {
    i := SkipForward(s, cursor, true);
    i := SkipForward(s, i, false);
  }

  method NextWordFrom(s: string, cursor: nat) returns (i: nat)
    requires Boundary(s, cursor)
    ensures Boundary(s, i) && Index(s, i) == NextWord(s, Index(s, cursor))
  {
    i := SkipForward(s, cursor, false);
    i := SkipForward(s, i, true);
  }

  method WordEndFrom(s: string, cursor: nat) returns (i: nat)
    requires Boundary(s, cursor)
    ensures Boundary(s, i) && Index(s, i) == WordEndOf(s, Index(s, cursor))
  {
    var end := WordRightFrom(s, cursor);
    IndexOrder(s, cursor, end);
    i := if end > cursor then PrevBoundary(s, end) else cursor;
  }

  /** `str::find`: the byte offset of the first `c`. */
  function FindByte(s: string, c: char): Option<nat> {
    var k := Find(s, c);
    if k == |s| then None else Some(Offset(s, k))
  }

  /** `str::rfind`: the byte offset of the last `c`. */
  function RFindByte(s: string, c: char): Option<nat> {
    if s == [] then None
    else if s[|s| - 1] == c then Some(Offset(s, |s| - 1))
    else RFindByte(s[..|s| - 1], c)
  }

  lemma {:induction false} RFindIsLineStart(s: string, i: nat)
    requires i <= |s|
    ensures var last := RFindByte(s[..i], '\n');
      Offset(s, LineStartOf(s, i)) == if last.Some? then last.value + 1 else 0
  {
    if i > 0 {
      assert s[..i][..i - 1] == s[..i - 1];
      OffsetOfPrefix(s[..i], s, i - 1);
      RFindIsLineStart(s, i - 1);
    }
  }

  lemma {:induction false} FindIsLineEnd(s: string, i: nat)
    requires i <= |s|
    ensures LineEndOf(s, i) == i + Find(s[i..], '\n')
    decreases |s| - i
  {
    if i < |s| {
      assert s[i..][1..] == s[i + 1..];
      FindIsLineEnd(s, i + 1);
    }
  }

  /** The start of the cursor's line. */
  function LineStartFrom(s: string, cursor: nat): (to: nat)
    requires Boundary(s, cursor)
    ensures Boundary(s, to) && Index(s, to) == LineStartOf(s, Index(s, cursor))
  {
    EndsAreBoundaries(s);
    RFindIsLineStart(s, Index(s, cursor));
    IndexOfOffset(s, LineStartOf(s, Index(s, cursor)));
    assert Slice(s, 0, cursor) == s[..Index(s, cursor)];
    match RFindByte(Slice(s, 0, cursor), '\n')
    case None => 0
    case Some(n) => n + 1
  }

  /** The end of the cursor's line. */
  function LineEndFrom(s: string, cursor: nat): (to: nat)
    requires Boundary(s, cursor)
    ensures Boundary(s, to) && Index(s, to) == LineEndOf(s, Index(s, cursor))
  {
    EndsAreBoundaries(s);
    IndexOrder(s, Len(s), cursor);
    FindIsLineEnd(s, Index(s, cursor));
    IndexOfOffset(s, LineEndOf(s, Index(s, cursor)));
    var after := Slice(s, cursor, Len(s));
    assert after == s[Index(s, cursor)..];
    OffsetShift(s, Index(s, cursor), after, Find(after, '\n'));
    match FindByte(after, '\n')
    case None => Len(s)
    case Some(n) => cursor + n
  }

  /** The offset `col` characters into the line `start..end`, clamped to `end`. */
  method ByteAtCol(s: string, start: nat, end: nat, col: nat) returns (to: nat)
    requires Boundary(s, start) && Boundary(s, end) && start <= end
    ensures Boundary(s, to) && Index(s, to) == Min(Index(s, start) + col, Index(s, end))
  {
    IndexOrder(s, end, start);
    to := start;
    for k := 0 to col
      invariant Boundary(s, to) && Index(s, to) == Min(Index(s, start) + k, Index(s, end))
    {
      IndexOrder(s, to, end);
      if to >= end {
        IndexOrder(s, end, to);
        break;
      }
      to := NextBoundary(s, to);
    }
    IndexOrder(s, to, end);
    IndexOrder(s, end, to);
    to := Min(to, end);
  }

  /** How many characters stand between two boundaries: `s[start..cursor].chars().count()`. */
  function CharsBetween(s: string, start: nat, cursor: nat): (n: nat)
    requires Boundary(s, start) && Boundary(s, cursor) && Index(s, start) <= Index(s, cursor)
    ensures n == Index(s, cursor) - Index(s, start)
  {
    IndexOrder(s, cursor, start);
    |Slice(s, start, cursor)|
  }

  /** A newline is one byte wide, so one byte before and after it are boundaries. */
  lemma AroundNewline(s: string, i: nat)
    requires i < |s| && s[i] == '\n'
    ensures var n := Offset(s, i);
      Boundary(s, n) && Index(s, n) == i && Boundary(s, n + 1) && Index(s, n + 1) == i + 1
  {
    IndexOfOffset(s, i);
    IndexOfOffset(s, i + 1);
  }

  /** What stands before a line's start, or after a line's end, is such a newline. */
  lemma LineStartFollowsNewline(s: string, i: nat, start: nat)
    requires i <= |s| && Boundary(s, start) && Index(s, start) == LineStartOf(s, i) && start > 0
    ensures Boundary(s, start - 1) && Index(s, start) > 0 && Index(s, start - 1) == Index(s, start) - 1
  {
    LineStartStops(s, i);
    assert Index(s, start) > 0;
    AroundNewline(s, Index(s, start) - 1);
  }

  lemma LineEndPrecedesNewline(s: string, i: nat, end: nat)
    requires i <= |s| && Boundary(s, end) && Index(s, end) == LineEndOf(s, i) && end < Len(s)
    ensures Index(s, end) < |s| && Boundary(s, end + 1) && Index(s, end + 1) == Index(s, end) + 1
  {
    LineEndStops(s, i);
    EndsAreBoundaries(s);
    IndexOrder(s, end, Len(s));
    AroundNewline(s, Index(s, end));
  }

  lemma ZeroOnlyFirst(s: string, n: nat)
    requires Boundary(s, n)
    ensures n == 0 <==> Index(s, n) == 0
    ensures n <= Len(s) && (n == Len(s) <==> Index(s, n) == |s|)
  {
    EndsAreBoundaries(s);
    IndexOrder(s, n, Len(s));
    IndexOrder(s, Len(s), n);
  }

  /** Up one line at the same column. */
  method LineUpFrom(s: string, cursor: nat) returns (to: nat)
    requires Boundary(s, cursor)
    ensures Boundary(s, to) && Index(s, to) == LineUpOf(s, Index(s, cursor))
  {
    var start := LineStartFrom(s, cursor);
    ZeroOnlyFirst(s, start);
    if start == 0 {
      return cursor;
    }
    LineStartFollowsNewline(s, Index(s, cursor), start);
    var col := CharsBetween(s, start, cursor);
    var prevStart := LineStartFrom(s, start - 1);
    IndexOrder(s, start - 1, prevStart);
    to := ByteAtCol(s, prevStart, start - 1, col);
  }

  /** Down one line at the same column. */
  method LineDownFrom(s: string, cursor: nat) returns (to: nat)
    requires Boundary(s, cursor)
    ensures Boundary(s, to) && Index(s, to) == LineDownOf(s, Index(s, cursor))
  {
    var end := LineEndFrom(s, cursor);
    ZeroOnlyFirst(s, end);
    if end == Len(s) {
      return cursor;
    }
    LineEndPrecedesNewline(s, Index(s, cursor), end);
    var col := CharsBetween(s, LineStartFrom(s, cursor), cursor);
    var nextEnd := LineEndFrom(s, end + 1);
    IndexOrder(s, nextEnd, end + 1);
    to := ByteAtCol(s, end + 1, nextEnd, col);
  }

  // ----- a buffer and what it shows -----

  /** A text with its cursor and mark as byte offsets. */
  datatype Buffer = Buffer(text: string, cursor: nat, mark: Option<nat>)

  predicate Legal(b: Buffer) {
    Boundary(b.text, b.cursor) && (b.mark.Some? ==> Boundary(b.text, b.mark.value))
  }

  /** The page a legal buffer stands for. */
  function View(b: Buffer): (p: Page)
    requires Legal(b)
    ensures Sound(p)
  {
    Page(b.text, Index(b.text, b.cursor),
         match b.mark case None => None case Some(m) => Some(Index(b.text, m)))
  }

  /** Nothing is lost in the view: a legal buffer is determined by it. */
  lemma ViewDetermines(a: Buffer, b: Buffer)
    requires Legal(a) && Legal(b) && View(a) == View(b)
    ensures a == b
  {
    assert Offset(a.text, Index(a.text, a.cursor)) == a.cursor;
  }

  /** What the mark and the cursor bound. The clamp to the text's length is the code's own. */
  function RegionOf(b: Buffer): (r: Option<(nat, nat)>)
    requires Legal(b)
    ensures r.Some? == b.mark.Some?
    ensures r.Some? ==> var (lo, hi) := r.value;
      && Boundary(b.text, lo) && Boundary(b.text, hi) && lo <= hi
      && Region(View(b)) == Some((Index(b.text, lo), Index(b.text, hi)))
  {
    match b.mark
    case None => None
    case Some(m) =>
      ClampKeepsMark(b);
      IndexOrder(b.text, b.cursor, m);
      var mark := Min(m, Len(b.text));
      Some((Min(mark, b.cursor), if mark <= b.cursor then b.cursor else mark))
  }

  /** The clamp never moves a mark: marks stay within the text. */
  lemma ClampKeepsMark(b: Buffer)
    requires Legal(b) && b.mark.Some?
    ensures Min(b.mark.value, Len(b.text)) == b.mark.value
  {
    OffsetGrows(b.text, Index(b.text, b.mark.value), |b.text|);
  }

  /** Moves `lo..hi` of the text into the kill buffer. */
  method KillRange(b: Buffer, lo: nat, hi: nat) returns (r: Buffer, kill: string)
    requires Boundary(b.text, lo) && Boundary(b.text, hi) && lo <= hi
    ensures Legal(r)
    ensures var i, j := Index(b.text, lo), Index(b.text, hi);
      i <= j && View(r) == Page(b.text[..i] + b.text[j..], i, None) && kill == b.text[i..j]
  {
    IndexOrder(b.text, hi, lo);
    kill := Slice(b.text, lo, hi);
    RemoveKeepsBoundary(b.text, lo, hi);
    r := Buffer(RemoveRange(b.text, lo, hi), lo, None);
  }

  /** Inserts a text at the cursor and moves past it. */
  method PasteAt(b: Buffer, text: string) returns (r: Buffer)
    requires Legal(b)
    ensures Legal(r) && View(r) == Paste(View(b), text)
  {
    var inserted := InsertStr(b.text, b.cursor, text);
    InsertedIsHeld(b.text, Index(b.text, b.cursor), text);
    InsertEndsOnBoundary(b.text, Index(b.text, b.cursor), text, inserted, b.cursor + Len(text));
    r := Buffer(inserted, b.cursor + Len(text), None);
  }

  /** The byte range a vi operator acts on. */
  method ViRange(b: Buffer, op: ViOp, motion: ViMotion) returns (lo: nat, hi: nat)
    requires Legal(b)
    ensures Boundary(b.text, lo) && Boundary(b.text, hi) && lo <= hi
    ensures (Index(b.text, lo), Index(b.text, hi)) == ViSpan(View(b), op, motion)
  {
    EndsAreBoundaries(b.text);
    lo, hi := b.cursor, b.cursor;
    match motion {
      case WordFwd =>
        if op.Change? {
          hi := WordRightFrom(b.text, b.cursor);
        } else {
          hi := NextWordFrom(b.text, b.cursor);
        }
      case WordEnd => hi := WordRightFrom(b.text, b.cursor);
      case LineEnd => hi := Len(b.text);
      case WordBack => lo := WordLeftFrom(b.text, b.cursor);
      case LineStart => lo := 0;
      case WholeLine => lo, hi := 0, Len(b.text);
    }
    IndexOrder(b.text, hi, lo);
  }

  // ----- the editor core -----

  /** Takes `lo..hi` out of the text, the cursor left at `lo`. */
  method DeleteRange(b: Buffer, lo: nat, hi: nat) returns (r: Buffer)
    requires Boundary(b.text, lo) && Boundary(b.text, hi) && lo <= hi
    ensures Legal(r)
    ensures var i, j := Index(b.text, lo), Index(b.text, hi);
      i <= j && View(r) == Page(b.text[..i] + b.text[j..], i, None)
  {
    IndexOrder(b.text, hi, lo);
    RemoveKeepsBoundary(b.text, lo, hi);
    r := Buffer(RemoveRange(b.text, lo, hi), lo, None);
  }

  method MoveFrom(s: string, cursor: nat, action: Edit) returns (to: nat)
    requires Boundary(s, cursor) && Moves(action)
    ensures Boundary(s, to) && Index(s, to) == Destination(s, Index(s, cursor), action)
  {
    match action {
      case Left => to := PrevBoundary(s, cursor);
      case Right | ViAppend => to := NextBoundary(s, cursor);
      case WordLeft => to := WordLeftFrom(s, cursor);
      case WordRight => to := WordRightFrom(s, cursor);
      case Home | ViInsertHome => to := LineStartFrom(s, cursor);
      case End | ViAppendEnd => to := LineEndFrom(s, cursor);
      case ViWordFwd => to := NextWordFrom(s, cursor);
      case ViWordEnd => to := WordEndFrom(s, cursor);
    }
  }

  /** The vi operator at work: `d`, `c` and `y` with a motion. */
  method Operate(b: Buffer, ghost oldKill: string, op: ViOp, motion: ViMotion)
    returns (r: Buffer, kill: string, mode: ViMode)
    requires Legal(b)
    ensures Legal(r)
    ensures Desk(View(r), kill, mode) == Edited(Desk(View(b), oldKill, Operator(op)), ViMotionApply(motion))
  {
    var lo, hi := ViRange(b, op, motion);
    match op {
      case Delete =>
        r, kill := KillRange(b, lo, hi);
        mode := Normal;
      case Change =>
        r, kill := KillRange(b, lo, hi);
        mode := ViMode.Insert;
      case Yank =>
        kill := Slice(b.text, lo, hi);
        r := Buffer(b.text, lo, None);
        mode := Normal;
    }
  }

  /** The line-relative kills. */
  method KillLine(b: Buffer, ghost oldKill: string, mode: ViMode, action: Edit)
    returns (r: Buffer, kill: string, newMode: ViMode)
    requires Legal(b) && (action.KillToEnd? || action.KillToStart? || action.ViChangeToEnd?)
    ensures Legal(r)
    ensures Desk(View(r), kill, newMode) == Edited(Desk(View(b), oldKill, mode), action)
  {
    var lo, hi := b.cursor, b.cursor;
    if action.KillToStart? {
      lo := LineStartFrom(b.text, b.cursor);
    } else {
      hi := LineEndFrom(b.text, b.cursor);
    }
    IndexOrder(b.text, hi, lo);
    r, kill := KillRange(b, lo, hi);
    newMode := if action.ViChangeToEnd? then ViMode.Insert else mode;
  }

  /** Cut and copy. */
  method TakeRegion(b: Buffer, kill: string, ghost mode: ViMode, action: Edit)
    returns (r: Buffer, newKill: string)
    requires Legal(b) && (action.Cut? || action.Copy?)
    ensures Legal(r)
    ensures Desk(View(r), newKill, mode) == Edited(Desk(View(b), kill, mode), action)
  {
    r, newKill := b.(mark := None), kill;
    var region := RegionOf(b);
    if region.Some? {
      var (lo, hi) := region.value;
      if action.Copy? {
        newKill := Slice(b.text, lo, hi);
      } else {
        r, newKill := KillRange(b, lo, hi);
      }
    } else if action.Cut? {
      var lo := WordLeftFrom(b.text, b.cursor);
      IndexOrder(b.text, b.cursor, lo);
      r, newKill := KillRange(b, lo, b.cursor);
    }
  }

  /** Backspace and delete. */
  method Erase(b: Buffer, ghost kill: string, ghost mode: ViMode, left: bool) returns (r: Buffer)
    requires Legal(b)
    ensures Legal(r)
    ensures Desk(View(r), kill, mode)
      == Edited(Desk(View(b), kill, mode), if left then DeleteLeft else DeleteRight)
  {
    r := b.(mark := None);
    if left {
      ZeroOnlyFirst(b.text, b.cursor);
      if b.cursor > 0 {
        r := DeleteRange(b, PrevBoundary(b.text, b.cursor), b.cursor);
      }
    } else {
      r := DeleteRange(b, b.cursor, NextBoundary(b.text, b.cursor));
      EraseNothing(View(b));
    }
  }

  lemma EraseNothing(p: Page)
    requires Sound(p)
    ensures p.at == |p.text| ==> p.text[..p.at] + p.text[p.at..] == p.text
  {
  }

  method Motion(b: Buffer, ghost kill: string, mode: ViMode, action: Edit) returns (r: Buffer, newMode: ViMode)
    requires Legal(b) && Moves(action)
    ensures Legal(r)
    ensures Desk(View(r), kill, newMode) == Edited(Desk(View(b), kill, mode), action)
  {
    var to := MoveFrom(b.text, b.cursor, action);
    r := b.(cursor := to);
    newMode := if action.ViAppend? || action.ViInsertHome? || action.ViAppendEnd? then ViMode.Insert else mode;
  }

  /** What only sets the mark or switches the mode, and what is not this core's business. */
  method Switch(b: Buffer, ghost kill: string, mode: ViMode, action: Edit) returns (r: Buffer, newMode: ViMode)
    requires Legal(b) && Switches(action)
    ensures Legal(r)
    ensures Desk(View(r), kill, newMode) == Edited(Desk(View(b), kill, mode), action)
  {
    r, newMode := b, mode;
    match action {
      case SetMark => r := b.(mark := Some(b.cursor));
      case ViInsert => newMode := ViMode.Insert;
      case ViNormal => newMode := Normal;
      case ViOperator(op) => newMode := Operator(op);
      case _ =>
    }
  }

  predicate Switches(action: Edit) {
    || action.SetMark? || action.ViInsert? || action.ViNormal? || action.ViOperator?
    || !OnText(action) || action.Submit? || action.Quit? || action.Ignore?
  }

  method Type(b: Buffer, ghost kill: string, ghost mode: ViMode, c: char) returns (r: Buffer)
    requires Legal(b)
    ensures Legal(r)
    ensures Desk(View(r), kill, mode) == Edited(Desk(View(b), kill, mode), Edit.Insert(c))
  {
    r := PasteAt(b, [c]);
  }

  method Pull(b: Buffer, kill: string, ghost mode: ViMode) returns (r: Buffer)
    requires Legal(b)
    ensures Legal(r)
    ensures Desk(View(r), kill, mode) == Edited(Desk(View(b), kill, mode), Edit.Yank)
  {
    r := PasteAt(b, kill);
  }

  /** `edit_text`: one text-editing action on a buffer, the shared kill buffer and the vi mode.
      On every legal buffer it does what `Edited` says and leaves a legal one. */
  method EditText(b: Buffer, kill: string, mode: ViMode, action: Edit)
    returns (r: Buffer, newKill: string, newMode: ViMode)
    requires Legal(b)
    ensures Legal(r)
    ensures Desk(View(r), newKill, newMode) == Edited(Desk(View(b), kill, mode), action)
  {
    r, newKill, newMode := b, kill, mode;
    match action {
      case Insert(c) =>
        r := Type(b, kill, mode, c);
      case DeleteLeft =>
        r := Erase(b, kill, mode, true);
      case DeleteRight =>
        r := Erase(b, kill, mode, false);
      case Left | Right | WordLeft | WordRight | Home | End | ViWordFwd | ViWordEnd
         | ViAppend | ViInsertHome | ViAppendEnd =>
        r, newMode := Motion(b, kill, mode, action);
      case KillToEnd | KillToStart | ViChangeToEnd =>
        r, newKill, newMode := KillLine(b, kill, mode, action);
      case Copy | Cut =>
        r, newKill := TakeRegion(b, kill, mode, action);
      case Yank =>
        r := Pull(b, kill, mode);
      case ViMotionApply(motion) =>
        if mode.Operator? {
          r, newKill, newMode := Operate(b, kill, mode.op, motion);
        }
      case _ =>
        r, newMode := Switch(b, kill, mode, action);
    }
  }

  // ----- the state the screen draws -----

  /** The actions both tabs hand to the editor core. */
  predicate OnText(action: Edit) {
    && !action.HistoryPrev? && !action.HistoryNext?
    && !action.ScrollUp? && !action.ScrollDown? && !action.Clear?
  }

  lemma LineTextEdited(t: Screen, action: Edit)
    requires SoundScreen(t) && OnText(action)
    ensures LineEdited(t, action) == OnLineDesk(t, action)
  {
  }

  lemma ScratchTextEdited(t: Screen, action: Edit)
    requires SoundScreen(t) && OnText(action)
    ensures ScratchEdited(t, action) == OnScratchDesk(t, action)
  {
  }

  /** The part of the screen's state that edits touch. The REPL line and the scratch buffer are
      each a text, a cursor and a mark. */
  class State {
    var line: Buffer
    var scratch: Buffer
    var kill: string
    var viMode: ViMode
    var history: seq<string>
    var historyPos: Option<nat>
    var scrollBack: nat

    /** Both cursors and both marks are on character boundaries of their texts, the history
        position is an index, the scroll fits its width. */
    predicate Valid()
      reads this
    {
      && Legal(line) && Legal(scratch)
      && (historyPos.Some? ==> historyPos.value < |history|)
      && scrollBack <= U16_MAX
    }

    /** What the state stands for, on character positions. */
    function Shown(): (t: Screen)
      requires Valid()
      reads this
      ensures SoundScreen(t)
    {
      Screen(View(line), View(scratch), kill, viMode, history, historyPos, scrollBack)
    }

    constructor (earlier: seq<string>)
      ensures Valid()
      ensures Shown() == Screen(Page([], 0, None), Page([], 0, None), [], ViMode.Insert, earlier, None, 0)
    {
      line := Buffer([], 0, None);
      scratch := Buffer([], 0, None);
      kill, viMode, history, historyPos, scrollBack := [], ViMode.Insert, earlier, None, 0;
      new;
      EndsAreBoundaries([]);
    }

    /** Puts `text` on the line, the cursor after it. */
    method PutLine(text: string)
      modifies this`line
      ensures Legal(line) && View(line) == Page(text, |text|, None)
    {
      line := Buffer(text, Len(text), None);
      EndsAreBoundaries(text);
    }

    /** `recall`. */
    method Recall(older: bool)
      requires Valid()
      modifies this`line, this`historyPos
      ensures Valid() && Shown() == Recalled(old(Shown()), older)
    {
      if history == [] {
        return;
      }
      var last := |history| - 1;
      match historyPos {
        case None =>
          historyPos := if older then Some(last) else None;
        case Some(p) =>
          if older {
            historyPos := Some(if p == 0 then 0 else p - 1);
          } else {
            historyPos := if p < last then Some(p + 1) else None;
          }
      }
      PutLine(if historyPos.Some? then history[historyPos.value] else []);
    }

    method Scroll(up: bool)
      requires Valid()
      modifies this`scrollBack
      ensures Valid() && Shown() == LineEdited(old(Shown()), if up then ScrollUp else ScrollDown)
    {
      if up {
        scrollBack := Min(scrollBack + SCROLL_STEP, U16_MAX);
      } else {
        scrollBack := if scrollBack < SCROLL_STEP then 0 else scrollBack - SCROLL_STEP;
      }
    }

    method TextOnLine(action: Edit)
      requires Valid() && OnText(action)
      modifies this
      ensures Valid() && Shown() == LineEdited(old(Shown()), action)
    {
      LineTextEdited(Shown(), action);
      line, kill, viMode := EditText(line, kill, viMode, action);
    }

    method TextOnScratch(action: Edit)
      requires Valid() && OnText(action)
      modifies this
      ensures Valid() && Shown() == ScratchEdited(old(Shown()), action)
    {
      ScratchTextEdited(Shown(), action);
      scratch, kill, viMode := EditText(scratch, kill, viMode, action);
    }

    /** The scratch buffer's vertical motion. */
    method MoveLine(up: bool)
      requires Valid()
      modifies this`scratch
      ensures Valid() && Shown() == ScratchEdited(old(Shown()), if up then HistoryPrev else HistoryNext)
    {
      var to;
      if up {
        to := LineUpFrom(scratch.text, scratch.cursor);
      } else {
        to := LineDownFrom(scratch.text, scratch.cursor);
      }
      scratch := scratch.(cursor := to);
    }

    /** `edit`: an action on the REPL line. */
    method EditLine(action: Edit)
      requires Valid()
      modifies this
      ensures Valid() && Shown() == LineEdited(old(Shown()), action)
    {
      match action {
        case HistoryPrev => Recall(true);
        case HistoryNext => Recall(false);
        case ScrollUp => Scroll(true);
        case ScrollDown => Scroll(false);
        case Clear => PutLine([]);
        case _ => TextOnLine(action);
      }
    }

    /** `scratch_edit`: an action on the scratch buffer. */
    method EditScratch(action: Edit)
      requires Valid()
      modifies this
      ensures Valid() && Shown() == ScratchEdited(old(Shown()), action)
    {
      match action {
        case HistoryPrev => MoveLine(true);
        case HistoryNext => MoveLine(false);
        case ScrollUp | ScrollDown | Clear =>
        case _ => TextOnScratch(action);
      }
    }

    /** What `submit` does to the state before the line is evaluated. */
    method Submit() returns (taken: string)
      requires Valid()
      modifies this
      ensures taken == old(line.text)
      ensures Valid() && Shown() == Submitted(old(Shown()))
    {
      taken := line.text;
      PutLine([]);
      viMode, historyPos, scrollBack := ViMode.Insert, None, 0;
      if !AllWhite(taken) {
        history := history + [taken];
      }
    }

    /** `apply` and `apply_scratch`: a yank takes the clipboard's text first, and a changed kill
        buffer is copied out to it. */
    method Handle(e: Event) returns (copied: Option<string>)
      requires Valid()
      modifies this
      ensures Valid() && Shown() == Next(old(Shown()), e) && copied == Pushed(old(Shown()), e)
    {
      if !e.Entered? && e.action.Yank? && e.clipboard.Some? {
        kill := e.clipboard.value;
      }
      var before := kill;
      match e {
        case Typed(action, _) => EditLine(action);
        case Scratched(action, _) => EditScratch(action);
        case Entered =>
          var _ := Submit();
          return None;
      }
      copied := if kill == before then None else Some(kill);
    }

    /** The loop of the screen over the events it reads: from a valid state, whatever they are,
        every slice is legal and the state stays valid. */
    method Drive(events: seq<Event>)
      requires Valid()
      modifies this
      ensures Valid() && Shown() == Run(old(Shown()), events)
    {
      for i := 0 to |events|
        invariant Valid() && Shown() == Run(old(Shown()), events[..i])
      {
        var _ := Handle(events[i]);
        assert events[..i + 1][..i] == events[..i];
      }
      assert events[..|events|] == events;
    }

    /** The text an evaluation of the scratch buffer submits. */
    method ScratchSrc() returns (src: string)
      requires Valid()
      ensures src == ScratchSource(Shown().scratch)
    {
      var region := RegionOf(scratch);
      src := scratch.text;
      if region.Some? {
        var (lo, hi) := region.value;
        IndexOrder(scratch.text, lo, hi);
        if hi > lo {
          src := Slice(scratch.text, lo, hi);
        }
      }
    }
  }
}
