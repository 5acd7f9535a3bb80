/** Where each editing action goes and what it takes, said on the characters of the text alone. */
module EditorLaws {
  import opened Strings
  import opened Editor

  predicate White(s: string, lo: nat, hi: nat)
    requires lo <= hi <= |s|
  {
    forall k :: lo <= k < hi ==> IsWhite(s[k])
  }

  predicate Inked(s: string, lo: nat, hi: nat)
    requires lo <= hi <= |s|
  {
    forall k :: lo <= k < hi ==> !IsWhite(s[k])
  }

  predicate InkAt(s: string, k: int) {
    0 <= k < |s| && !IsWhite(s[k])
  }

  predicate WhiteAt(s: string, k: int) {
    0 <= k < |s| && IsWhite(s[k])
  }

  // ----- words -----

  /** Back from `at` to `to` there is only whitespace, down to `mid`, and then one word. */
  predicate CrossesBack(s: string, to: nat, mid: nat, at: nat)
    requires at <= |s|
  {
    && to <= mid <= at
    && White(s, mid, at) && !WhiteAt(s, mid - 1)
    && Inked(s, to, mid) && !InkAt(s, to - 1)
  }

  /** On from `at` to `to` there is only whitespace, up to `mid`, and then one word. */
  predicate CrossesWord(s: string, at: nat, mid: nat, to: nat)
    requires to <= |s|
  {
    && at <= mid <= to
    && White(s, at, mid) && !WhiteAt(s, mid)
    && Inked(s, mid, to) && !InkAt(s, to)
  }

  /** On from `at` to `to` there is only the rest of a word, up to `mid`, and then whitespace. */
  predicate CrossesGap(s: string, at: nat, mid: nat, to: nat)
    requires to <= |s|
  {
    && at <= mid <= to
    && Inked(s, at, mid) && !InkAt(s, mid)
    && White(s, mid, to) && !WhiteAt(s, to)
  }

  ghost predicate WordLeftOn(s: string, at: nat, to: nat)
    requires at <= |s|
  {
    exists mid: nat :: CrossesBack(s, to, mid, at)
  }

  ghost predicate WordRightOn(s: string, at: nat, to: nat) {
    to <= |s| && exists mid: nat :: CrossesWord(s, at, mid, to)
  }

  ghost predicate NextWordOn(s: string, at: nat, to: nat) {
    to <= |s| && exists mid: nat :: CrossesGap(s, at, mid, to)
  }

  /** The last character crossed by a word to the right, when any is. */
  ghost predicate WordEndOn(s: string, at: nat, to: nat) {
    exists end: nat :: WordRightOn(s, at, end) && to == if end > at then end - 1 else at
  }

  lemma BackUnique(s: string, at: nat, to: nat, mid: nat)
    requires at <= |s| && CrossesBack(s, to, mid, at)
    ensures to == WordLeftOf(s, at)
  {
    var m := BackOver(s, at, true);
    assert m == mid by {
      assert m > mid ==> WhiteAt(s, m - 1);
      assert mid > m ==> WhiteAt(s, mid - 1);
    }
    var t := BackOver(s, m, false);
    assert t > to ==> InkAt(s, t - 1);
    assert to > t ==> InkAt(s, to - 1);
  }

  lemma WordLeftLaw(s: string, at: nat, to: nat)
    requires at <= |s|
    ensures to == WordLeftOf(s, at) <==> WordLeftOn(s, at, to)
  {
    assert CrossesBack(s, WordLeftOf(s, at), BackOver(s, at, true), at);
    if mid: nat :| CrossesBack(s, to, mid, at) {
      BackUnique(s, at, to, mid);
    }
  }

  lemma WordUnique(s: string, at: nat, mid: nat, to: nat)
    requires at <= |s| && to <= |s| && CrossesWord(s, at, mid, to)
    ensures to == WordRightOf(s, at)
  {
    var m := Over(s, at, true);
    assert m == mid by {
      assert m > mid ==> WhiteAt(s, mid);
      assert mid > m ==> WhiteAt(s, m);
    }
    var t := Over(s, m, false);
    assert t > to ==> InkAt(s, to);
    assert to > t ==> InkAt(s, t);
  }

  lemma WordRightLaw(s: string, at: nat, to: nat)
    requires at <= |s|
    ensures to == WordRightOf(s, at) <==> WordRightOn(s, at, to)
  {
    assert CrossesWord(s, at, Over(s, at, true), WordRightOf(s, at));
    if to <= |s| {
      if mid: nat :| CrossesWord(s, at, mid, to) {
        WordUnique(s, at, mid, to);
      }
    }
  }

  lemma GapUnique(s: string, at: nat, mid: nat, to: nat)
    requires at <= |s| && to <= |s| && CrossesGap(s, at, mid, to)
    ensures to == NextWord(s, at)
  {
    var m := Over(s, at, false);
    assert m == mid by {
      assert m > mid ==> InkAt(s, mid);
      assert mid > m ==> InkAt(s, m);
    }
    var t := Over(s, m, true);
    assert t > to ==> WhiteAt(s, to);
    assert to > t ==> WhiteAt(s, t);
  }

  lemma NextWordLaw(s: string, at: nat, to: nat)
    requires at <= |s|
    ensures to == NextWord(s, at) <==> NextWordOn(s, at, to)
  {
    assert CrossesGap(s, at, Over(s, at, false), NextWord(s, at));
    if to <= |s| {
      if mid: nat :| CrossesGap(s, at, mid, to) {
        GapUnique(s, at, mid, to);
      }
    }
  }

  lemma WordEndLaw(s: string, at: nat, to: nat)
    requires at <= |s|
    ensures to == WordEndOf(s, at) <==> WordEndOn(s, at, to)
  {
    var right := WordRightOf(s, at);
    WordRightLaw(s, at, right);
    if end: nat :| WordRightOn(s, at, end) && to == if end > at then end - 1 else at {
      WordRightLaw(s, at, end);
    }
  }

  // ----- motions -----

  /** A desk whose cursor alone has moved. */
  function MovedTo(d: Desk, to: nat): Desk {
    d.(page := d.page.(at := to))
  }

  /** The word motions go exactly where the characters say, and touch nothing else. */
  lemma WordMotionsLand(d: Desk, to: nat)
    requires Sound(d.page)
    ensures var s, at := d.page.text, d.page.at;
      && (Edited(d, WordLeft) == MovedTo(d, to) <==> WordLeftOn(s, at, to))
      && (Edited(d, WordRight) == MovedTo(d, to) <==> WordRightOn(s, at, to))
      && (Edited(d, ViWordFwd) == MovedTo(d, to) <==> NextWordOn(s, at, to))
      && (Edited(d, ViWordEnd) == MovedTo(d, to) <==> WordEndOn(s, at, to))
  {
    WordLeftLaw(d.page.text, d.page.at, to);
    WordRightLaw(d.page.text, d.page.at, to);
    NextWordLaw(d.page.text, d.page.at, to);
    WordEndLaw(d.page.text, d.page.at, to);
  }

  /** Left and Right go one character, staying in the text. */
  lemma CharacterMotionsLand(d: Desk)
    requires Sound(d.page)
    ensures Edited(d, Left) == MovedTo(d, if d.page.at > 0 then d.page.at - 1 else 0)
    ensures Edited(d, Right) == MovedTo(d, if d.page.at < |d.page.text| then d.page.at + 1 else d.page.at)
    ensures Edited(d, ViAppend) == Edited(d, Right).(mode := ViMode.Insert)
  {
  }

  /** Home and End go to the two ends of the one line that holds the cursor. */
  lemma LineMotionsLand(d: Desk, start: nat, end: nat)
    requires Sound(d.page) && IsLine(d.page.text, start, end) && start <= d.page.at <= end
    ensures Edited(d, Home) == MovedTo(d, start) && Edited(d, End) == MovedTo(d, end)
    ensures Edited(d, ViInsertHome) == MovedTo(d, start).(mode := ViMode.Insert)
    ensures Edited(d, ViAppendEnd) == MovedTo(d, end).(mode := ViMode.Insert)
  {
    OnLine(d.page.text, start, end, d.page.at);
  }

  /** There is such a line, and only one. */
  lemma OneLineHoldsIt(s: string, at: nat) returns (start: nat, end: nat)
    requires at <= |s|
    ensures start <= at <= end && IsLine(s, start, end)
    ensures forall a: nat, b: nat :: a <= at <= b && IsLine(s, a, b) ==> a == start && b == end
  {
    start, end := LineOf(s, at);
    forall a: nat, b: nat | a <= at <= b && IsLine(s, a, b) ensures a == start && b == end {
      OnLine(s, a, b, at);
    }
  }

  /** Which actions end in which vi mode. */
  lemma ModeAfter(d: Desk, action: Edit)
    requires Sound(d.page)
    ensures var mode := Edited(d, action).mode;
      match action
      case ViInsert | ViAppend | ViInsertHome | ViAppendEnd | ViChangeToEnd => mode == ViMode.Insert
      case ViNormal => mode == Normal
      case ViOperator(op) => mode == Operator(op)
      case ViMotionApply(_) =>
        mode == if d.mode == Operator(Change) then ViMode.Insert else if d.mode.Operator? then Normal else d.mode
      case _ => mode == d.mode
  {
  }

  // ----- typing, erasing, marking -----

  /** A typed character stands at the cursor, which is then after it. */
  lemma TypingInserts(d: Desk, c: char)
    requires Sound(d.page)
    ensures var r := Edited(d, Edit.Insert(c)); var s, at := d.page.text, d.page.at;
      && r.page.text[..at] == s[..at] && |r.page.text| == |s| + 1 && r.page.text[at] == c
      && r.page.text[at + 1..] == s[at..] && r.page.at == at + 1
      && r.kill == d.kill && r.page.mark == None
  {
  }

  /** Typing back what was erased restores the text; there is nothing to erase only at an end. */
  lemma ErasedComesBack(d: Desk)
    requires Sound(d.page)
    ensures var s, at := d.page.text, d.page.at; var unmarked := d.(page := d.page.(mark := None));
      && (if at > 0 then Edited(Edited(d, DeleteLeft), Edit.Insert(s[at - 1])) == unmarked
          else Edited(d, DeleteLeft) == unmarked)
      && (if at < |s| then Edited(Edited(d, DeleteRight), Edit.Insert(s[at])) == MovedTo(unmarked, at + 1)
          else Edited(d, DeleteRight) == unmarked)
  {
    var s, at := d.page.text, d.page.at;
    if at > 0 {
      assert (s[..at - 1] + s[at..])[..at - 1] + [s[at - 1]] + (s[..at - 1] + s[at..])[at - 1..] == s;
    }
    if at < |s| {
      assert (s[..at] + s[at + 1..])[..at] + [s[at]] + (s[..at] + s[at + 1..])[at..] == s;
    }
  }

  /** Setting the mark changes nothing else, and a cut after any motion takes exactly what lies
      between the two places. */
  lemma MarkThenCut(d: Desk, motion: Edit, to: nat)
    requires Sound(d.page) && Moves(motion) && to == Edited(d, motion).page.at
    ensures Edited(d, SetMark) == d.(page := d.page.(mark := Some(d.page.at)))
    ensures var r := Edited(Edited(Edited(d, SetMark), motion), Cut); var at := d.page.at;
      r.kill == if to <= at then d.page.text[to..at] else d.page.text[at..to]
  {
  }

  // ----- what is taken -----

  /** The stretch a killing or copying action takes, on the characters. */
  ghost predicate Takes(d: Desk, action: Edit, lo: nat, hi: nat)
    requires Sound(d.page)
  {
    var s, at := d.page.text, d.page.at;
    && lo <= hi <= |s|
    && match action
       case KillToEnd | ViChangeToEnd => lo == at && exists start: nat :: start <= at && IsLine(s, start, hi)
       case KillToStart => hi == at && exists end: nat :: at <= end && IsLine(s, lo, end)
       case Copy => d.page.mark.Some? && Bounds(d.page.mark.value, at, lo, hi)
       case Cut =>
         if d.page.mark.Some? then Bounds(d.page.mark.value, at, lo, hi) else hi == at && WordLeftOn(s, at, lo)
       case ViMotionApply(motion) => d.mode.Operator? && Spans(s, at, d.mode.op, motion, lo, hi)
       case _ => false
  }

  predicate Bounds(mark: nat, at: nat, lo: nat, hi: nat) {
    (lo == mark && hi == at) || (lo == at && hi == mark)
  }

  /** vi's spans: `cw` is `ce`, and `$`, `0` and the doubled letter are text-wide. */
  ghost predicate Spans(s: string, at: nat, op: ViOp, motion: ViMotion, lo: nat, hi: nat)
    requires at <= |s|
  {
    match motion
    case WordFwd => lo == at && if op.Change? then WordRightOn(s, at, hi) else NextWordOn(s, at, hi)
    case WordEnd => lo == at && WordRightOn(s, at, hi)
    case WordBack => hi == at && WordLeftOn(s, at, lo)
    case LineEnd => lo == at && hi == |s|
    case LineStart => lo == 0 && hi == at
    case WholeLine => lo == 0 && hi == |s|
  }

  lemma SpansLaw(p: Page, op: ViOp, motion: ViMotion, lo: nat, hi: nat)
    requires Sound(p)
    ensures Spans(p.text, p.at, op, motion, lo, hi) <==> (lo, hi) == ViSpan(p, op, motion)
  {
    match motion
    case WordBack => WordLeftLaw(p.text, p.at, lo);
    case _ =>
      WordRightLaw(p.text, p.at, hi);
      NextWordLaw(p.text, p.at, hi);
  }

  lemma LineEndLaw(s: string, at: nat, hi: nat)
    requires at <= |s|
    ensures hi == LineEndOf(s, at) <==> exists start: nat :: start <= at && IsLine(s, start, hi) && at <= hi
  {
    var a, b := LineOf(s, at);
    if start: nat :| start <= at && IsLine(s, start, hi) && at <= hi {
      OnLine(s, start, hi, at);
    }
  }

  lemma LineStartLaw(s: string, at: nat, lo: nat)
    requires at <= |s|
    ensures lo == LineStartOf(s, at) <==> exists end: nat :: at <= end && IsLine(s, lo, end) && lo <= at
  {
    var a, b := LineOf(s, at);
    if end: nat :| at <= end && IsLine(s, lo, end) && lo <= at {
      OnLine(s, lo, end, at);
    }
  }

  lemma KillTakesLaw(d: Desk, action: Edit, lo: nat, hi: nat)
    requires Sound(d.page) && Kills(d, action)
    ensures Takes(d, action, lo, hi) <==> (lo, hi) == KillSpan(d, action)
  {
    var s, at := d.page.text, d.page.at;
    match action
    case KillToStart => LineStartLaw(s, at, lo);
    case Cut => WordLeftLaw(s, at, lo);
    case ViMotionApply(motion) => SpansLaw(d.page, d.mode.op, motion, lo, hi);
    case _ => LineEndLaw(s, at, hi);
  }

  /** Each kill takes one stretch, the one the characters give, out of the text and into the kill
      buffer, and leaves the cursor where it was. */
  lemma KillTakes(d: Desk, action: Edit)
    requires Sound(d.page) && Kills(d, action)
    ensures exists lo: nat, hi: nat :: Takes(d, action, lo, hi)
    ensures forall lo: nat, hi: nat :: Takes(d, action, lo, hi) ==>
      var r := Edited(d, action); var s := d.page.text;
      r.page == Page(s[..lo] + s[hi..], lo, None) && r.kill == s[lo..hi]
  {
    KillCutsSpan(d, action);
    var span := KillSpan(d, action);
    KillTakesLaw(d, action, span.0, span.1);
    forall lo: nat, hi: nat | Takes(d, action, lo, hi) ensures (lo, hi) == span {
      KillTakesLaw(d, action, lo, hi);
    }
  }

  /** Each copy takes its stretch into the kill buffer and leaves the text; vi's yank also goes to
      where the stretch begins. */
  lemma CopyTakes(d: Desk, action: Edit, lo: nat, hi: nat)
    requires Sound(d.page) && Copies(d, action) && Takes(d, action, lo, hi)
    ensures var r := Edited(d, action);
      && r.kill == d.page.text[lo..hi]
      && r.page == Page(d.page.text, if action.Copy? then d.page.at else lo, None)
  {
    if action.ViMotionApply? {
      SpansLaw(d.page, d.mode.op, action.motion, lo, hi);
    }
  }

  /** And there is such a stretch. */
  lemma CopyHasStretch(d: Desk, action: Edit) returns (lo: nat, hi: nat)
    requires Sound(d.page) && Copies(d, action)
    ensures Takes(d, action, lo, hi)
  {
    if action.Copy? {
      lo, hi := Region(d.page).value.0, Region(d.page).value.1;
    } else {
      lo, hi := ViSpan(d.page, d.mode.op, action.motion).0, ViSpan(d.page, d.mode.op, action.motion).1;
      SpansLaw(d.page, d.mode.op, action.motion, lo, hi);
    }
  }

  // ----- the screen -----

  /** What is no text edit: the line's own actions. */
  predicate LinesOwn(action: Edit) {
    action.HistoryPrev? || action.HistoryNext? || action.ScrollUp? || action.ScrollDown? || action.Clear?
  }

  /** Every text edit does to either buffer what it does to a desk, the clipboard read first by a
      yank, and leaves all else alone. */
  lemma EditsEither(t: Screen, scratch: bool, action: Edit, clipboard: Option<string>)
    requires SoundScreen(t) && !LinesOwn(action)
    ensures var kill := if action == Edit.Yank && clipboard.Some? then clipboard.value else t.kill;
      var d := Edited(Desk(PageOf(t, scratch), kill, t.mode), action);
      var r := t.(kill := d.kill, mode := d.mode);
      Next(t, On(scratch, action, clipboard)) == if scratch then r.(scratch := d.page) else r.(line := d.page)
  {
  }

  /** The line's own actions: scrolling goes five lines within its width and touches nothing else,
      clearing empties the line alone; on the scratch buffer none of the three does anything. */
  lemma LinesOwnActions(t: Screen, clipboard: Option<string>)
    requires SoundScreen(t)
    ensures Next(t, Typed(ScrollUp, clipboard))
      == t.(scroll := if t.scroll + 5 <= 65535 then t.scroll + 5 else 65535)
    ensures Next(t, Typed(ScrollDown, clipboard)) == t.(scroll := if t.scroll >= 5 then t.scroll - 5 else 0)
    ensures Next(t, Typed(Clear, clipboard)) == t.(line := Page([], 0, None))
    ensures forall action :: action == ScrollUp || action == ScrollDown || action == Clear ==>
      Next(t, Scratched(action, clipboard)) == t
  {
  }

  /** One row up at the same column, clamped to that line; the first row stays. */
  predicate GoesUp(s: string, at: nat, to: nat)
    requires at <= |s|
  {
    if Row(s, at) == 0 then to == at
    else to <= |s| && Row(s, to) + 1 == Row(s, at) && Col(s, to) == Min(Col(s, at), LineLength(s, to))
  }

  /** One row down likewise; the last row, which no newline ends, stays. */
  predicate GoesDown(s: string, at: nat, to: nat)
    requires at <= |s|
  {
    if '\n' !in s[at..] then to == at
    else to <= |s| && Row(s, to) == Row(s, at) + 1 && Col(s, to) == Min(Col(s, at), LineLength(s, to))
  }

  lemma UpGoesUp(s: string, at: nat)
    requires at <= |s|
    ensures GoesUp(s, at, LineUpOf(s, at))
  {
    var start, end := LineOf(s, at);
    RowOnLine(s, start, at);
    if start > 0 {
      LineUpMoves(s, at, LineUpOf(s, at), start - 1);
    } else {
      assert s[..0] == [];
    }
  }

  lemma DownGoesDown(s: string, at: nat)
    requires at <= |s|
    ensures GoesDown(s, at, LineDownOf(s, at))
  {
    var start, end := LineOf(s, at);
    EdgesStay(s, at);
    if end < |s| {
      assert s[at..][end - at] == '\n';
      LineDownMoves(s, at, LineDownOf(s, at), end + 1);
    } else {
      assert forall k :: 0 <= k < |s| - at ==> s[at..][k] == s[at + k];
    }
  }

  /** Up and Down in the scratch buffer go by rows and touch nothing else. */
  lemma ScratchRows(t: Screen, clipboard: Option<string>)
    requires SoundScreen(t)
    ensures var r := Next(t, Scratched(HistoryPrev, clipboard));
      r == t.(scratch := t.scratch.(at := r.scratch.at)) && GoesUp(t.scratch.text, t.scratch.at, r.scratch.at)
    ensures var r := Next(t, Scratched(HistoryNext, clipboard));
      r == t.(scratch := t.scratch.(at := r.scratch.at)) && GoesDown(t.scratch.text, t.scratch.at, r.scratch.at)
  {
    UpGoesUp(t.scratch.text, t.scratch.at);
    DownGoesDown(t.scratch.text, t.scratch.at);
  }

  /** Submitting takes the line, keeps it in the history unless all of it is whitespace, and
      resets the line, the mode, the browsing and the scroll. */
  lemma SubmitKeepsTheLine(t: Screen)
    requires SoundScreen(t)
    ensures var r := Next(t, Entered);
      && r.line == Page([], 0, None) && r.mode == ViMode.Insert && r.browsing == None && r.scroll == 0
      && r.scratch == t.scratch && r.kill == t.kill
      && (if White(t.line.text, 0, |t.line.text|) then r.history == t.history
          else |r.history| == |t.history| + 1 && t.history <= r.history && r.history[|t.history|] == t.line.text)
  {
    assert AllWhite(t.line.text) <==> White(t.line.text, 0, |t.line.text|) by {
      if White(t.line.text, 0, |t.line.text|) {
        forall c | c in t.line.text ensures IsWhite(c) {
        }
      }
    }
  }

  /** The scratch buffer submits what lies between mark and cursor, or all of it when that is
      nothing. */
  lemma SourceIsRegion(p: Page)
    requires Sound(p)
    ensures p.mark.Some? && p.mark.value < p.at ==> ScratchSource(p) == p.text[p.mark.value..p.at]
    ensures p.mark.Some? && p.at < p.mark.value ==> ScratchSource(p) == p.text[p.at..p.mark.value]
    ensures p.mark.None? || p.mark.value == p.at ==> ScratchSource(p) == p.text
  {
  }
}
