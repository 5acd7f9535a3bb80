/** What the editing actions of `tui.rs` mean, on character positions: the specification the
    byte-offset editor of `Tui` refines. */
module Editor {
  import opened Strings

  datatype ViOp = Delete | Change | Yank

  datatype ViMotion = WordFwd | WordBack | WordEnd | LineStart | LineEnd | WholeLine

  datatype ViMode = Insert | Normal | Operator(op: ViOp)

  /** One decoded input action. */
  datatype Edit =
    | Insert(c: char) | DeleteLeft | DeleteRight
    | Left | Right | WordLeft | WordRight | Home | End
    | KillToEnd | KillToStart | SetMark | Copy | Cut | Yank
    | HistoryPrev | HistoryNext | ScrollUp | ScrollDown | Clear
    | ViInsert | ViAppend | ViInsertHome | ViAppendEnd | ViChangeToEnd | ViNormal
    | ViWordFwd | ViWordEnd | ViOperator(op: ViOp) | ViMotionApply(motion: ViMotion)
    | Submit | Quit | Ignore

  /** A text with its cursor and mark as character positions. */
  datatype Page = Page(text: string, at: nat, mark: Option<nat>)

  predicate Sound(p: Page) {
    p.at <= |p.text| && (p.mark.Some? ==> p.mark.value <= |p.text|)
  }

  /** A page, the shared kill buffer and the vi mode: what an editing action works on. */
  datatype Desk = Desk(page: Page, kill: string, mode: ViMode)

  // ----- positions -----

  /** The end of the run of characters from `at` whose whiteness is `white`. */
  function Over(s: string, at: nat, white: bool): (end: nat)
    requires at <= |s|
    ensures at <= end <= |s|
    ensures forall k :: at <= k < end ==> IsWhite(s[k]) == white
    ensures end < |s| ==> IsWhite(s[end]) != white
    decreases |s| - at
  {
    if at < |s| && IsWhite(s[at]) == white then Over(s, at + 1, white) else at
  }

  /** The start of the run of characters up to `at` whose whiteness is `white`. */
  function BackOver(s: string, at: nat, white: bool): (start: nat)
    requires at <= |s|
    ensures start <= at
    ensures forall k :: start <= k < at ==> IsWhite(s[k]) == white
    ensures start > 0 ==> IsWhite(s[start - 1]) != white
  {
    if at > 0 && IsWhite(s[at - 1]) == white then BackOver(s, at - 1, white) else at
  }

  /** One word left: the whitespace before the cursor, then the word before it. */
  function WordLeftOf(s: string, at: nat): (to: nat)
    requires at <= |s|
    ensures to <= at
  {
    BackOver(s, BackOver(s, at, true), false)
  }

  /** One word right: the whitespace at the cursor, then the word after it. */
  function WordRightOf(s: string, at: nat): (to: nat)
    requires at <= |s|
    ensures at <= to <= |s|
  {
    Over(s, Over(s, at, true), false)
  }

  /** vi `w`: the rest of the word at the cursor, then the whitespace after it. */
  function NextWord(s: string, at: nat): (to: nat)
    requires at <= |s|
    ensures at <= to <= |s|
  {
    Over(s, Over(s, at, false), true)
  }

  /** vi `e`: the last character of what `WordRightOf` crosses. */
  function WordEndOf(s: string, at: nat): (to: nat)
    requires at <= |s|
    ensures at <= to <= |s|
  {
    var end := WordRightOf(s, at);
    if end > at then end - 1 else at
  }

  predicate NoNewline(s: string, lo: nat, hi: nat)
    requires lo <= hi <= |s|
  {
    forall k :: lo <= k < hi ==> s[k] != '\n'
  }

  function LineStartOf(s: string, at: nat): (start: nat)
    requires at <= |s|
    ensures start <= at
  {
    if at == 0 || s[at - 1] == '\n' then at else LineStartOf(s, at - 1)
  }

  function LineEndOf(s: string, at: nat): (end: nat)
    requires at <= |s|
    ensures at <= end <= |s|
    decreases |s| - at
  {
    if at == |s| || s[at] == '\n' then at else LineEndOf(s, at + 1)
  }

  function Min(a: nat, b: nat): nat {
    if a <= b then a else b
  }

  /** The same column of the line above, clamped to it; the first line stays put. */
  function LineUpOf(s: string, at: nat): (to: nat)
    requires at <= |s|
    ensures to <= at
  {
    var start := LineStartOf(s, at);
    if start == 0 then at else Min(LineStartOf(s, start - 1) + (at - start), start - 1)
  }

  /** The same column of the line below, clamped to it; the last line stays put. */
  function LineDownOf(s: string, at: nat): (to: nat)
    requires at <= |s|
    ensures at <= to <= |s|
  {
    var end := LineEndOf(s, at);
    if end == |s| then at else
      Min(end + 1 + (at - LineStartOf(s, at)), LineEndOf(s, end + 1))
  }

  // ----- actions -----

  /** What the mark and the cursor bound. */
  function Region(p: Page): (r: Option<(nat, nat)>)
    requires Sound(p)
    ensures r.Some? <==> p.mark.Some?
    ensures r.Some? ==> r.value.0 <= p.at <= r.value.1 <= |p.text|
    ensures r.Some? ==> p.mark == Some(r.value.0) || p.mark == Some(r.value.1)
  {
    match p.mark
    case None => None
    case Some(m) => Some(if m <= p.at then (m, p.at) else (p.at, m))
  }

  /** Moves `lo..hi` of the text into the kill buffer. */
  function CutOut(d: Desk, lo: nat, hi: nat): Desk
    requires lo <= hi <= |d.page.text|
  {
    var s := d.page.text;
    d.(page := Page(s[..lo] + s[hi..], lo, None), kill := s[lo..hi])
  }

  function Paste(p: Page, text: string): Page
    requires Sound(p)
  {
    Page(p.text[..p.at] + text + p.text[p.at..], p.at + |text|, None)
  }

  /** The span a vi operator acts on. */
  function ViSpan(p: Page, op: ViOp, motion: ViMotion): (span: (nat, nat))
    requires Sound(p)
    ensures span.0 <= p.at <= span.1 <= |p.text|
  {
    match motion
    case WordFwd =>
      if op.Change? then (p.at, WordRightOf(p.text, p.at)) else (p.at, NextWord(p.text, p.at))
    case WordEnd => (p.at, WordRightOf(p.text, p.at))
    case LineEnd => (p.at, |p.text|)
    case WordBack => (WordLeftOf(p.text, p.at), p.at)
    case LineStart => (0, p.at)
    case WholeLine => (0, |p.text|)
  }

  /** The motions: actions that only move the cursor (three of them then enter vi's insert
      mode). */
  predicate Moves(action: Edit) {
    || action.Left? || action.Right? || action.WordLeft? || action.WordRight? || action.Home?
    || action.End? || action.ViWordFwd? || action.ViWordEnd? || action.ViAppend?
    || action.ViInsertHome? || action.ViAppendEnd?
  }

  function Destination(s: string, at: nat, action: Edit): (to: nat)
    requires at <= |s| && Moves(action)
    ensures to <= |s|
  {
    match action
    case Left => if at == 0 then 0 else at - 1
    case Right | ViAppend => Min(at + 1, |s|)
    case WordLeft => WordLeftOf(s, at)
    case WordRight => WordRightOf(s, at)
    case Home | ViInsertHome => LineStartOf(s, at)
    case End | ViAppendEnd => LineEndOf(s, at)
    case ViWordFwd => NextWord(s, at)
    case ViWordEnd => WordEndOf(s, at)
  }

  /** The text-editing actions; the others change nothing here. */
  function Edited(d: Desk, action: Edit): (r: Desk)
    requires Sound(d.page)
    ensures Sound(r.page)
  {
    var p := d.page;
    var s := p.text;
    if Moves(action) then
      var enters := action.ViAppend? || action.ViInsertHome? || action.ViAppendEnd?;
      d.(page := p.(at := Destination(s, p.at, action)), mode := if enters then ViMode.Insert else d.mode)
    else
    match action
    case Insert(c) => d.(page := Paste(p, [c]))
    case DeleteLeft =>
      if p.at > 0 then d.(page := Page(s[..p.at - 1] + s[p.at..], p.at - 1, None))
      else d.(page := p.(mark := None))
    case DeleteRight =>
      if p.at < |s| then d.(page := Page(s[..p.at] + s[p.at + 1..], p.at, None))
      else d.(page := p.(mark := None))
    case KillToEnd => CutOut(d, p.at, LineEndOf(s, p.at))
    case KillToStart => CutOut(d, LineStartOf(s, p.at), p.at)
    case SetMark => d.(page := p.(mark := Some(p.at)))
    case Copy =>
      match Region(p) {
        case None => d.(page := p.(mark := None))
        case Some(r) => d.(page := p.(mark := None), kill := s[r.0..r.1])
      }
    case Cut =>
      match Region(p) {
        case None => CutOut(d, WordLeftOf(s, p.at), p.at)
        case Some(r) => CutOut(d, r.0, r.1)
      }
    case Yank => d.(page := Paste(p, d.kill))
    case ViInsert => d.(mode := ViMode.Insert)
    case ViNormal => d.(mode := Normal)
    case ViChangeToEnd => CutOut(d, p.at, LineEndOf(s, p.at)).(mode := ViMode.Insert)
    case ViOperator(op) => d.(mode := Operator(op))
    case ViMotionApply(motion) =>
      if d.mode.Operator? then
        var span := ViSpan(p, d.mode.op, motion);
        match d.mode.op {
          case Delete => CutOut(d, span.0, span.1).(mode := Normal)
          case Change => CutOut(d, span.0, span.1).(mode := ViMode.Insert)
          case Yank => Desk(Page(s, span.0, None), s[span.0..span.1], Normal)
        }
      else d
    case _ => d
  }

  // ----- killing and yanking -----

  /** The actions that move text into the kill buffer. */
  predicate Kills(d: Desk, action: Edit) {
    || action.KillToEnd? || action.KillToStart? || action.Cut? || action.ViChangeToEnd?
    || (action.ViMotionApply? && d.mode.Operator? && !d.mode.op.Yank?)
  }

  /** The actions that only copy text into it. */
  predicate Copies(d: Desk, action: Edit) {
    || (action.Copy? && d.page.mark.Some?)
    || (action.ViMotionApply? && d.mode.Operator? && d.mode.op.Yank?)
  }

  /** Every kill splits the text, around where the cursor was, into what remains and the kill
      buffer; an immediate yank puts it back and leaves the cursor after it. */
  lemma KillSplits(d: Desk, action: Edit)
    requires Sound(d.page) && Kills(d, action)
    ensures var r := Edited(d, action);
      && d.page.text == r.page.text[..r.page.at] + r.kill + r.page.text[r.page.at..]
      && r.page.at <= d.page.at <= r.page.at + |r.kill|
      && r.page.mark == None
      && var back := Edited(r, Edit.Yank);
         back.page == Page(d.page.text, r.page.at + |r.kill|, None) && back.kill == r.kill
  {
    KillCutsSpan(d, action);
    var span := KillSpan(d, action);
    CutSplits(d, span.0, span.1, Edited(d, action));
  }

  lemma CutSplits(d: Desk, lo: nat, hi: nat, r: Desk)
    requires lo <= hi <= |d.page.text|
    requires r.page == CutOut(d, lo, hi).page && r.kill == CutOut(d, lo, hi).kill
    ensures d.page.text == r.page.text[..lo] + r.kill + r.page.text[lo..]
    ensures Edited(r, Edit.Yank).page == Page(d.page.text, hi, None) && Edited(r, Edit.Yank).kill == r.kill
  {
    var s := d.page.text;
    assert r.page.text[..lo] == s[..lo] && r.page.text[lo..] == s[hi..];
    assert s == s[..lo] + s[lo..hi] + s[hi..];
  }

  /** What a killing action takes. */
  function KillSpan(d: Desk, action: Edit): (span: (nat, nat))
    requires Sound(d.page) && Kills(d, action)
    ensures span.0 <= d.page.at <= span.1 <= |d.page.text|
  {
    var p := d.page;
    match action
    case KillToStart => (LineStartOf(p.text, p.at), p.at)
    case ViMotionApply(motion) => ViSpan(p, d.mode.op, motion)
    case Cut => if p.mark.Some? then Region(p).value else (WordLeftOf(p.text, p.at), p.at)
    case _ => (p.at, LineEndOf(p.text, p.at))
  }

  lemma KillCutsSpan(d: Desk, action: Edit)
    requires Sound(d.page) && Kills(d, action)
    ensures var span := KillSpan(d, action);
      && Edited(d, action).page == CutOut(d, span.0, span.1).page
      && Edited(d, action).kill == CutOut(d, span.0, span.1).kill
  {
  }

  /** Copying leaves the text alone and takes a stretch of it that reaches the old cursor. */
  lemma CopyKeepsText(d: Desk, action: Edit)
    requires Sound(d.page) && Copies(d, action)
    ensures var r := Edited(d, action);
      && r.page.text == d.page.text && r.page.mark == None
      && exists lo, hi :: 0 <= lo <= d.page.at <= hi <= |d.page.text| && r.kill == d.page.text[lo..hi]
                          && (action.Copy? ==> lo == d.page.mark.value || hi == d.page.mark.value)
  {
    var span := if action.Copy? then Region(d.page).value else ViSpan(d.page, d.mode.op, action.motion);
    assert Edited(d, action).kill == d.page.text[span.0..span.1];
  }

  /** Nothing else touches the kill buffer, and whatever changes the text drops the mark. */
  lemma TextChangeDropsMark(d: Desk, action: Edit)
    requires Sound(d.page)
    ensures var r := Edited(d, action);
      && (r.page.text != d.page.text ==> r.page.mark == None)
      && (r.kill != d.kill ==> Kills(d, action) || Copies(d, action))
      && (r.page.mark != d.page.mark ==> r.page.mark == None || (action.SetMark? && r.page.mark == Some(d.page.at)))
  {
  }

  /** Backspace takes back what was typed. */
  lemma BackspaceUndoesInsert(d: Desk, c: char)
    requires Sound(d.page)
    ensures var r := Edited(Edited(d, Edit.Insert(c)), DeleteLeft);
      r == d.(page := d.page.(mark := None))
  {
    var s, at := d.page.text, d.page.at;
    var t := s[..at] + [c] + s[at..];
    assert t[..at] + t[at + 1..] == s;
  }

  /** Delete takes back what was typed too, from the left of it. */
  lemma DeleteUndoesInsert(d: Desk, c: char)
    requires Sound(d.page)
    ensures var r := Edited(Edited(Edited(d, Edit.Insert(c)), Left), DeleteRight);
      r == d.(page := d.page.(mark := None))
  {
    var s, at := d.page.text, d.page.at;
    var t := s[..at] + [c] + s[at..];
    assert t[..at] + t[at + 1..] == s;
  }

  // ----- lines -----

  function Newlines(s: string): nat {
    if s == [] then 0 else Newlines(s[..|s| - 1]) + if s[|s| - 1] == '\n' then 1 else 0
  }

  /** The zero-based row of a position, and its column. */
  function Row(s: string, at: nat): nat
    requires at <= |s|
  {
    Newlines(s[..at])
  }

  function Col(s: string, at: nat): nat
    requires at <= |s|
  {
    at - LineStartOf(s, at)
  }

  /** The length of the line a position is on. */
  function LineLength(s: string, at: nat): nat
    requires at <= |s|
  {
    LineEndOf(s, at) - LineStartOf(s, at)
  }

  lemma {:induction false} LineStartUnique(s: string, at: nat, start: nat)
    requires start <= at <= |s| && (start == 0 || s[start - 1] == '\n') && NoNewline(s, start, at)
    ensures LineStartOf(s, at) == start
  {
    if start < at {
      LineStartUnique(s, at - 1, start);
    }
  }

  lemma {:induction false} LineEndUnique(s: string, at: nat, end: nat)
    requires at <= end <= |s| && (end == |s| || s[end] == '\n') && NoNewline(s, at, end)
    ensures LineEndOf(s, at) == end
    decreases end - at
  {
    if at < end {
      LineEndUnique(s, at + 1, end);
    }
  }

  /** `start..end` is one whole line of the text. */
  predicate IsLine(s: string, start: nat, end: nat) {
    && start <= end <= |s| && NoNewline(s, start, end)
    && (start == 0 || s[start - 1] == '\n') && (end == |s| || s[end] == '\n')
  }

  lemma {:induction false} LineStartStops(s: string, at: nat)
    requires at <= |s|
    ensures var start := LineStartOf(s, at);
      (start == 0 || s[start - 1] == '\n') && NoNewline(s, start, at)
  {
    if at > 0 && s[at - 1] != '\n' {
      LineStartStops(s, at - 1);
    }
  }

  lemma {:induction false} LineEndStops(s: string, at: nat)
    requires at <= |s|
    ensures var end := LineEndOf(s, at);
      (end == |s| || s[end] == '\n') && NoNewline(s, at, end)
    decreases |s| - at
  {
    if at < |s| && s[at] != '\n' {
      LineEndStops(s, at + 1);
    }
  }

  /** The line a position is on. */
  lemma LineOf(s: string, at: nat) returns (start: nat, end: nat)
    requires at <= |s|
    ensures start == LineStartOf(s, at) && end == LineEndOf(s, at)
    ensures start <= at <= end && IsLine(s, start, end)
  {
    start, end := LineStartOf(s, at), LineEndOf(s, at);
    LineStartStops(s, at);
    LineEndStops(s, at);
  }

  lemma OnLine(s: string, start: nat, end: nat, at: nat)
    requires IsLine(s, start, end) && start <= at <= end
    ensures LineStartOf(s, at) == start && LineEndOf(s, at) == end
    ensures Col(s, at) == at - start && LineLength(s, at) == end - start
  {
    LineStartUnique(s, at, start);
    LineEndUnique(s, at, end);
  }

  lemma {:induction false} RowOnLine(s: string, start: nat, at: nat)
    requires start <= at <= |s| && NoNewline(s, start, at)
    ensures Row(s, at) == Row(s, start)
  {
    if start < at {
      assert s[..at][..at - 1] == s[..at - 1];
      RowOnLine(s, start, at - 1);
    }
  }

  lemma RowAfterNewline(s: string, end: nat)
    requires end < |s| && s[end] == '\n'
    ensures Row(s, end + 1) == Row(s, end) + 1
  {
    assert s[..end + 1][..end] == s[..end];
  }

  lemma NextLine(s: string, start: nat, end: nat) returns (nextEnd: nat)
    requires IsLine(s, start, end) && end < |s|
    ensures IsLine(s, end + 1, nextEnd) && nextEnd == LineEndOf(s, end + 1)
  {
    nextEnd := LineEndOf(s, end + 1);
    LineEndStops(s, end + 1);
  }

  lemma LineBefore(s: string, start: nat, end: nat) returns (above: nat)
    requires IsLine(s, start, end) && start > 0
    ensures IsLine(s, above, start - 1) && above == LineStartOf(s, start - 1)
  {
    above := LineStartOf(s, start - 1);
    LineStartStops(s, start - 1);
  }

  /** Both vertical motions, between two lines that follow each other. */
  lemma BetweenLines(s: string, above: nat, start: nat, end: nat, up: nat, down: nat)
    requires start > 0 && IsLine(s, above, start - 1) && IsLine(s, start, end)
    requires above <= up < start <= down <= end
    ensures LineDownOf(s, up) == Min(start + (up - above), end)
    ensures LineUpOf(s, down) == Min(above + (down - start), start - 1)
    ensures Row(s, down) == Row(s, up) + 1
    ensures Col(s, up) == up - above && LineLength(s, up) == start - 1 - above
    ensures Col(s, down) == down - start && LineLength(s, down) == end - start
  {
    OnLine(s, above, start - 1, up);
    OnLine(s, above, start - 1, start - 1);
    OnLine(s, start, end, start);
    OnLine(s, start, end, down);
    RowOnLine(s, up, start - 1);
    RowAfterNewline(s, start - 1);
    RowOnLine(s, start, down);
  }

  lemma DownFrom(s: string, above: nat, start: nat, end: nat, at: nat, to: nat)
    requires start > 0 && IsLine(s, above, start - 1) && IsLine(s, start, end)
    requires above <= at < start && to == Min(start + (at - above), end)
    ensures LineDownOf(s, at) == to && Row(s, to) == Row(s, at) + 1
    ensures Col(s, to) == Min(Col(s, at), LineLength(s, to))
    ensures LineUpOf(s, to) == at <==> Col(s, at) <= end - start
  {
    BetweenLines(s, above, start, end, at, to);
  }

  lemma UpFrom(s: string, above: nat, start: nat, end: nat, at: nat, to: nat)
    requires start > 0 && IsLine(s, above, start - 1) && IsLine(s, start, end)
    requires start <= at <= end && to == Min(above + (at - start), start - 1)
    ensures LineUpOf(s, at) == to && Row(s, at) == Row(s, to) + 1
    ensures Col(s, to) == Min(Col(s, at), LineLength(s, to))
    ensures LineDownOf(s, to) == at <==> Col(s, at) <= start - 1 - above
  {
    BetweenLines(s, above, start, end, to, at);
  }

  /** With a line below, down moves one row at the same column, clamped to that line; up then
      comes back exactly when that line is long enough to hold the column. */
  lemma LineDownMoves(s: string, at: nat, to: nat, below: nat)
    requires at <= |s| && LineEndOf(s, at) < |s| && below == LineEndOf(s, at) + 1
    requires to == LineDownOf(s, at)
    ensures Row(s, to) == Row(s, at) + 1 && Col(s, to) == Min(Col(s, at), LineLength(s, to))
    ensures LineUpOf(s, to) == at <==> Col(s, at) <= LineLength(s, below)
  {
    var start, end := LineOf(s, at);
    var nextEnd := NextLine(s, start, end);
    DownFrom(s, start, below, nextEnd, at, Min(below + (at - start), nextEnd));
    OnLine(s, below, nextEnd, below);
  }

  /** With a line above, up moves one row back at the same column, clamped to that line; down
      then comes back exactly when that line is long enough to hold the column. */
  lemma LineUpMoves(s: string, at: nat, to: nat, above: nat)
    requires at <= |s| && LineStartOf(s, at) > 0 && above == LineStartOf(s, at) - 1
    requires to == LineUpOf(s, at)
    ensures Row(s, at) == Row(s, to) + 1 && Col(s, to) == Min(Col(s, at), LineLength(s, to))
    ensures LineDownOf(s, to) == at <==> Col(s, at) <= LineLength(s, above)
  {
    var start, end := LineOf(s, at);
    var first := LineBefore(s, start, end);
    UpFrom(s, first, start, end, at, Min(first + (at - start), start - 1));
    OnLine(s, first, above, above);
  }

  /** On the last line down stays put, on the first up does; nowhere else. */
  lemma EdgesStay(s: string, at: nat)
    requires at <= |s|
    ensures LineDownOf(s, at) == at <==> LineEndOf(s, at) == |s|
    ensures LineUpOf(s, at) == at <==> LineStartOf(s, at) == 0
  {
  }

  // ----- where the vi operators leave the line -----

  /** `d$` is a kill to the end of the TEXT: it agrees with the line-relative kill exactly when
      no line follows. */
  lemma DeleteToEndIsTextWide(d: Desk)
    requires Sound(d.page) && d.mode == Operator(Delete)
    ensures var vi := Edited(d, ViMotionApply(LineEnd)); var kill := Edited(d, KillToEnd);
      (vi.page == kill.page && vi.kill == kill.kill) <==> '\n' !in d.page.text[d.page.at..]
  {
    var s, at := d.page.text, d.page.at;
    var end := LineEndOf(s, at);
    LineEndStops(s, at);
    var vi, kill := Edited(d, ViMotionApply(LineEnd)), Edited(d, KillToEnd);
    assert |vi.kill| == |s| - at && |kill.kill| == end - at;
    assert end < |s| ==> s[at..][end - at] == '\n';
  }

  /** `d0` kills from the start of the TEXT: it agrees with the line-relative kill exactly when
      no line precedes. */
  lemma DeleteToStartIsTextWide(d: Desk)
    requires Sound(d.page) && d.mode == Operator(Delete)
    ensures var vi := Edited(d, ViMotionApply(LineStart)); var kill := Edited(d, KillToStart);
      (vi.page == kill.page && vi.kill == kill.kill) <==> '\n' !in d.page.text[..d.page.at]
  {
    var s, at := d.page.text, d.page.at;
    var start := LineStartOf(s, at);
    LineStartStops(s, at);
    var vi, kill := Edited(d, ViMotionApply(LineStart)), Edited(d, KillToStart);
    assert |vi.kill| == at && |kill.kill| == at - start;
    assert start > 0 ==> s[..at][start - 1] == '\n';
    assert s[0..at] == s[..at];
  }

  /** `dd` takes the cursor's line alone exactly when the text is one line. */
  lemma DeleteLineIsTextWide(d: Desk)
    requires Sound(d.page) && d.mode == Operator(Delete)
    ensures var vi := Edited(d, ViMotionApply(WholeLine)); var s, at := d.page.text, d.page.at;
      && vi.page == Page([], 0, None) && vi.kill == s
      && (vi.kill == s[LineStartOf(s, at)..LineEndOf(s, at)] <==> '\n' !in s)
  {
    var s, at := d.page.text, d.page.at;
    var start, end := LineOf(s, at);
    assert s[..0] + s[|s|..] == [] && s[0..|s|] == s;
    assert |s[start..end]| == end - start;
    assert start > 0 ==> '\n' in s;
    assert end < |s| ==> '\n' in s;
    assert start == 0 && end == |s| ==> s == s[start..at] + s[at..end];
  }

  /** vi `e` never leaves the word it is in: pressed again it stays, so it reaches a later word
      only from the whitespace before it. */
  lemma WordEndStays(s: string, at: nat)
    requires at <= |s|
    ensures WordEndOf(s, WordEndOf(s, at)) == WordEndOf(s, at)
    ensures WordEndOf(s, at) == at <==> at + 1 >= |s| || (!IsWhite(s[at]) && IsWhite(s[at + 1]))
  {
    var end := WordRightOf(s, at);
    if end > at {
      var mid := Over(s, at, true);
      if mid < end {
        assert !IsWhite(s[end - 1]);
      }
    }
  }

  // ----- the two buffers, the history, and whole runs -----

  const SCROLL_STEP: nat := 5
  const U16_MAX: nat := 0xFFFF

  /** The editor's whole state: the REPL line and the scratch buffer share the kill buffer and
      the vi mode. */
  datatype Screen = Screen(
    line: Page, scratch: Page, kill: string, mode: ViMode,
    history: seq<string>, browsing: Option<nat>, scroll: nat)

  predicate SoundScreen(t: Screen) {
    && Sound(t.line) && Sound(t.scratch)
    && (t.browsing.Some? ==> t.browsing.value < |t.history|)
    && t.scroll <= U16_MAX
  }

  /** Up (`older`) and Down through the history. */
  function Recalled(t: Screen, older: bool): (r: Screen)
    requires SoundScreen(t)
    ensures SoundScreen(r)
  {
    if t.history == [] then t else
      var last := |t.history| - 1;
      var next := match t.browsing
        case None => if older then Some(last) else None
        case Some(p) =>
          if older then Some(if p == 0 then 0 else p - 1)
          else if p < last then Some(p + 1) else None;
      var text := if next.Some? then t.history[next.value] else [];
      t.(browsing := next, line := Page(text, |text|, None))
  }

  function OnLineDesk(t: Screen, action: Edit): (r: Screen)
    requires SoundScreen(t)
    ensures SoundScreen(r)
  {
    var d := Edited(Desk(t.line, t.kill, t.mode), action);
    t.(line := d.page, kill := d.kill, mode := d.mode)
  }

  function OnScratchDesk(t: Screen, action: Edit): (r: Screen)
    requires SoundScreen(t)
    ensures SoundScreen(r)
  {
    var d := Edited(Desk(t.scratch, t.kill, t.mode), action);
    t.(scratch := d.page, kill := d.kill, mode := d.mode)
  }

  /** An action on the REPL line. */
  function LineEdited(t: Screen, action: Edit): (r: Screen)
    requires SoundScreen(t)
    ensures SoundScreen(r)
  {
    match action
    case HistoryPrev => Recalled(t, true)
    case HistoryNext => Recalled(t, false)
    case ScrollUp => t.(scroll := Min(t.scroll + SCROLL_STEP, U16_MAX))
    case ScrollDown => t.(scroll := if t.scroll < SCROLL_STEP then 0 else t.scroll - SCROLL_STEP)
    case Clear => t.(line := Page([], 0, None))
    case _ => OnLineDesk(t, action)
  }

  /** An action on the scratch buffer: Up and Down move by lines, scrolling and clearing do
      nothing. */
  function ScratchEdited(t: Screen, action: Edit): (r: Screen)
    requires SoundScreen(t)
    ensures SoundScreen(r)
  {
    match action
    case HistoryPrev => t.(scratch := t.scratch.(at := LineUpOf(t.scratch.text, t.scratch.at)))
    case HistoryNext => t.(scratch := t.scratch.(at := LineDownOf(t.scratch.text, t.scratch.at)))
    case ScrollUp | ScrollDown | Clear => t
    case _ => OnScratchDesk(t, action)
  }

  /** Submitting the line: it is taken, kept in the history unless blank, and everything about
      it starts afresh. */
  function Submitted(t: Screen): (r: Screen)
    requires SoundScreen(t)
    ensures SoundScreen(r)
  {
    t.(line := Page([], 0, None), mode := ViMode.Insert, browsing := None, scroll := 0,
       history := if AllWhite(t.line.text) then t.history else t.history + [t.line.text])
  }

  /** What can happen to the screen; an edit comes with what the system clipboard holds. */
  datatype Event =
    | Typed(action: Edit, clipboard: Option<string>)
    | Scratched(action: Edit, clipboard: Option<string>)
    | Entered

  /** A yank takes the clipboard's text first, when there is one. */
  function Pulled(t: Screen, action: Edit, clipboard: Option<string>): Screen {
    if action.Yank? && clipboard.Some? then t.(kill := clipboard.value) else t
  }

  /** What an event puts on the system clipboard: the kill buffer, when the edit changed it. */
  function Pushed(t: Screen, e: Event): Option<string>
    requires SoundScreen(t)
  {
    if e.Entered? then None else
      var kill := Next(t, e).kill;
      if kill == Pulled(t, e.action, e.clipboard).kill then None else Some(kill)
  }

  /** What the clipboard holds after an event, if it held `held`. */
  function Held(t: Screen, e: Event, held: Option<string>): Option<string>
    requires SoundScreen(t)
  {
    var pushed := Pushed(t, e);
    if pushed.Some? then pushed else held
  }

  /** The same event on either buffer, and that buffer. */
  function On(scratch: bool, action: Edit, clipboard: Option<string>): Event {
    if scratch then Scratched(action, clipboard) else Typed(action, clipboard)
  }

  function PageOf(t: Screen, scratch: bool): Page {
    if scratch then t.scratch else t.line
  }

  /** A kill and a yank after it, the clipboard between them: the text comes back exactly when the
      kill changed the kill buffer, or the clipboard held nothing else. Killing the same text
      again pushes nothing, so a yank then takes what another program put there since. */
  lemma YankAfterKill(t: Screen, scratch: bool, action: Edit, held: Option<string>)
    requires SoundScreen(t) && Kills(Desk(PageOf(t, scratch), t.kill, t.mode), action)
    ensures var e := On(scratch, action, held); var r := Next(t, e);
      var back := Next(r, On(scratch, Edit.Yank, Held(t, e, held)));
      PageOf(back, scratch).text == PageOf(t, scratch).text
      <==> r.kill != t.kill || held.None? || held == Some(r.kill)
  {
    var d := Desk(PageOf(t, scratch), t.kill, t.mode);
    var e := On(scratch, action, held);
    var r := Next(t, e);
    EditsItsPage(t, scratch, action, held);
    EditsItsPage(r, scratch, Edit.Yank, Held(t, e, held));
    var after := Desk(PageOf(r, scratch), r.kill, r.mode);
    KillThenPaste(d, action, after, if Held(t, e, held).Some? then Held(t, e, held).value else r.kill);
  }

  /** A killing action or a yank does to either buffer what it does to a desk. */
  lemma EditsItsPage(t: Screen, scratch: bool, action: Edit, held: Option<string>)
    requires SoundScreen(t) && (action.Yank? || Kills(Desk(PageOf(t, scratch), t.kill, t.mode), action))
    ensures var r := Next(t, On(scratch, action, held));
      var kill := if action.Yank? && held.Some? then held.value else t.kill;
      Desk(PageOf(r, scratch), r.kill, r.mode) == Edited(Desk(PageOf(t, scratch), kill, t.mode), action)
  {
  }

  /** Pasting after a kill brings the text back exactly when it is the killed text that is pasted. */
  lemma KillThenPaste(d: Desk, action: Edit, r: Desk, taken: string)
    requires Sound(d.page) && Kills(d, action) && r == Edited(d, action)
    ensures Edited(r.(kill := taken), Edit.Yank).page.text == d.page.text <==> taken == r.kill
  {
    KillSplits(d, action);
    PasteInstead(r.page.text, r.page.at, r.kill, taken);
  }

  lemma PasteInstead(s: string, at: nat, a: string, b: string)
    requires at <= |s|
    ensures s[..at] + a + s[at..] == s[..at] + b + s[at..] <==> a == b
  {
    var x, y := s[..at] + a + s[at..], s[..at] + b + s[at..];
    if x == y {
      assert |a| == |b|;
      assert a == x[at..at + |a|] && b == y[at..at + |b|];
    }
  }

  function Next(t: Screen, e: Event): (r: Screen)
    requires SoundScreen(t)
    ensures SoundScreen(r)
  {
    match e
    case Typed(action, clipboard) => LineEdited(Pulled(t, action, clipboard), action)
    case Scratched(action, clipboard) => ScratchEdited(Pulled(t, action, clipboard), action)
    case Entered => Submitted(t)
  }

  function Run(t: Screen, events: seq<Event>): (r: Screen)
    requires SoundScreen(t)
    ensures SoundScreen(r)
  {
    if events == [] then t else Next(Run(t, events[..|events| - 1]), events[|events| - 1])
  }

  /** The part of the screen the scratch buffer's events leave alone. */
  predicate SameLine(t: Screen, r: Screen) {
    r.line == t.line && r.history == t.history && r.browsing == t.browsing && r.scroll == t.scroll
  }

  predicate HistoryGrows(t: Screen, r: Screen) {
    t.history <= r.history && forall k :: |t.history| <= k < |r.history| ==> !AllWhite(r.history[k])
  }

  lemma NextKeepsApart(t: Screen, e: Event)
    requires SoundScreen(t)
    ensures var r := Next(t, e);
      if e.Scratched? then SameLine(t, r) else r.scratch == t.scratch
    ensures HistoryGrows(t, Next(t, e))
  {
  }

  /** In every run each buffer is out of reach of the other's events, and the history only
      grows, by submitted lines that are not blank. */
  lemma {:induction false} RunKeepsApart(t: Screen, events: seq<Event>)
    requires SoundScreen(t)
    ensures (forall e :: e in events ==> !e.Scratched?) ==> Run(t, events).scratch == t.scratch
    ensures (forall e :: e in events ==> e.Scratched?) ==> SameLine(t, Run(t, events))
    ensures HistoryGrows(t, Run(t, events))
  {
    if events != [] {
      var before, last := events[..|events| - 1], events[|events| - 1];
      assert forall e :: e in before ==> e in events;
      RunKeepsApart(t, before);
      NextKeepsApart(Run(t, before), last);
      HistoryGrowsOn(t, Run(t, before), Run(t, events));
    }
  }

  lemma HistoryGrowsOn(t: Screen, r: Screen, last: Screen)
    requires HistoryGrows(t, r) && HistoryGrows(r, last)
    ensures HistoryGrows(t, last)
  {
  }

  /** From the newest line, `n` Ups show the `n`-th newest (the oldest once they run out). */
  lemma {:induction false} UpsReachBack(t: Screen, n: nat)
    requires SoundScreen(t) && t.history != [] && t.browsing == None && n > 0
    ensures var r := Run(t, seq(n, i => Typed(HistoryPrev, None)));
      var p := if n <= |t.history| then |t.history| - n else 0;
      r == t.(browsing := Some(p), line := Page(t.history[p], |t.history[p]|, None))
  {
    var ups := seq(n, i => Typed(HistoryPrev, None));
    assert ups[..n - 1] == seq(n - 1, i => Typed(HistoryPrev, None));
    if n > 1 {
      UpsReachBack(t, n - 1);
    } else {
      assert Run(t, ups[..0]) == t;
    }
  }

  /** Down undoes Up while an older line was there to go to; from a line being typed, the pair
      empties it, so it comes back exactly when it was empty and unmarked. */
  lemma DownAfterUp(t: Screen)
    requires SoundScreen(t) && t.history != []
    ensures var r := Recalled(Recalled(t, true), false);
      && (t.browsing.None? ==> (r == t <==> t.line == Page([], 0, None)))
      && (t.browsing.Some? && t.browsing.value > 0 ==>
            r.browsing == t.browsing && r.line.text == t.history[t.browsing.value])
  {
  }

  /** Down on a line being typed, with a history to browse, empties it: it stays only if it was
      empty, or there is no history. */
  lemma DownWhileTyping(t: Screen)
    requires SoundScreen(t) && t.browsing == None
    ensures Recalled(t, false) == t <==> t.history == [] || t.line == Page([], 0, None)
  {
  }

  /** What an evaluation of the scratch buffer submits: the marked region, or the whole text
      when nothing or an empty region is marked. */
  function ScratchSource(p: Page): (src: string)
    requires Sound(p)
  {
    match Region(p)
    case Some(r) => if r.0 < r.1 then p.text[r.0..r.1] else p.text
    case None => p.text
  }
}
