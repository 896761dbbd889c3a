/** The terminal as a plain grid of lines with a cursor.
 */
module Screens {
  import opened Basics
  import opened Ansi

  datatype Cell = Cell(ch: nat, fg: Color, bg: Color)

  datatype Screen = Screen(rows: seq<seq<Cell>>, cx: nat, cy: nat, fg: Color, bg: Color)

  ghost predicate WellFormed(s: Screen, w: nat, h: nat) {
    && |s.rows| == h && s.cx < w && s.cy < h
    && (forall y :: 0 <= y < h ==> |s.rows[y]| == w)
  }

  function Blank(s: Screen): Cell {
    Cell(32, s.fg, s.bg)
  }

  function Repeat(c: Cell, n: nat): seq<Cell> {
    seq(n, i => c)
  }

  function Blanks(s: Screen, n: nat): seq<Cell> {
    Repeat(Blank(s), n)
  }

  /** The cursor goes to the next line; past the last one the top line is dropped and a blank one
      appended. */
  function NewLine(s: Screen, w: nat): Screen {
    if s.cy + 1 < |s.rows| then s.(cx := 0, cy := s.cy + 1)
    else if s.rows == [] then s
    else s.(cx := 0, rows := s.rows[1..] + [Blanks(s, w)], cy := |s.rows| - 1)
  }

  /** The screen with `c` under the cursor. */
  function Put(s: Screen, c: Cell): Screen
    requires s.cy < |s.rows| && s.cx < |s.rows[s.cy]|
  {
    s.(rows := s.rows[s.cy := s.rows[s.cy][s.cx := c]])
  }

  function WriteChar(s: Screen, ch: nat, w: nat, h: nat): Screen
    requires WellFormed(s, w, h)
  {
    if ch == 10 then NewLine(s, w)
    else if ch == 8 then
      if s.cx > 0 then s.(cx := s.cx - 1)
      else if s.cy > 0 then s.(cx := w - 1, cy := s.cy - 1)
      else s
    else if ch < 32 || ch == 127 then s
    else
      var t := Put(s, Cell(ch, s.fg, s.bg));
      if s.cx + 1 >= w then NewLine(t, w) else t.(cx := s.cx + 1)
  }

  /** The rest of the cursor's line is cleared, the cell under the cursor included. */
  function Erase(s: Screen, w: nat): Screen
    requires s.cy < |s.rows| && s.cx < w == |s.rows[s.cy]|
  {
    s.(rows := s.rows[s.cy := s.rows[s.cy][..s.cx] + Blanks(s, w - s.cx)])
  }

  /** What the terminal does on erase-to-end: on a single line with the cursor in the first column
      the range to clear comes out empty. */
  function EraseAsWritten(s: Screen, w: nat, h: nat): Screen
    requires s.cy < |s.rows| && s.cx < w == |s.rows[s.cy]|
  {
    if h == 1 && s.cx == 0 then s else Erase(s, w)
  }

  /** It is the erase that is meant exactly if there are two lines, or the cursor is not in the
      first column, or the line is blank already. */
  lemma EraseIsExact(s: Screen, w: nat, h: nat)
    requires WellFormed(s, w, h)
    ensures EraseAsWritten(s, w, h) == Erase(s, w) <==> h >= 2 || s.cx > 0 || s.rows[0] == Blanks(s, w)
  {
    if h == 1 && s.cx == 0 {
      assert s.rows[0][..0] + Blanks(s, w) == Blanks(s, w);
      if s.rows[0] == Blanks(s, w) {
        assert s.rows[0 := s.rows[0]] == s.rows;
      } else {
        assert Erase(s, w).rows[0] != s.rows[0];
      }
    }
  }

  function Colored(s: Screen, actions: seq<SgrAction>): Screen {
    if actions == [] then s
    else
      var t := Colored(s, actions[..|actions| - 1]);
      match actions[|actions| - 1]
      case Reset => t.(fg := White, bg := Black)
      case SetFg(c) => t.(fg := c)
      case SetBg(c) => t.(bg := c)
  }

  lemma {:induction false} ColoredKeeps(s: Screen, actions: seq<SgrAction>)
    ensures Colored(s, actions) == s.(fg := Colored(s, actions).fg, bg := Colored(s, actions).bg)
  {
    if actions != [] {
      ColoredKeeps(s, actions[..|actions| - 1]);
    }
  }

  /** The effect of one action of the parser. */
  function Apply(s: Screen, a: Action, w: nat, h: nat): Screen
    requires WellFormed(s, w, h)
  {
    match a
    case WriteChar(ch) => WriteChar(s, ch, w, h)
    case CursorUp(n) => s.(cy := if n > s.cy then 0 else s.cy - n)
    case CursorDown(n) => s.(cy := Least(s.cy + n, h - 1))
    case CursorRight(n) => s.(cx := Least(s.cx + n, w - 1))
    case CursorLeft(n) => s.(cx := if n > s.cx then 0 else s.cx - n)
    case EraseToLineEnd => EraseAsWritten(s, w, h)
    case Sgr(actions) => Colored(s, actions)
  }

  /** The cursor stays on the screen and the lines keep their length. */
  lemma ApplyKeeps(s: Screen, a: Action, w: nat, h: nat)
    requires WellFormed(s, w, h)
    ensures WellFormed(Apply(s, a, w, h), w, h)
  {
    if a.Sgr? {
      ColoredKeeps(s, a.actions);
    }
  }

  /** A terminal: what is pending and what is shown. */
  datatype Term = Term(pending: Pending, screen: Screen)

  function Feed(t: Term, b: Byte, w: nat, h: nat): Term
    requires WellFormed(t.screen, w, h)
  {
    var (p, a) := Step(t.pending, b);
    Term(p, if a.Some? then Apply(t.screen, a.value, w, h) else t.screen)
  }

  lemma FeedKeeps(t: Term, b: Byte, w: nat, h: nat)
    requires WellFormed(t.screen, w, h)
    ensures WellFormed(Feed(t, b, w, h).screen, w, h)
  {
    var (p, a) := Step(t.pending, b);
    if a.Some? {
      ApplyKeeps(t.screen, a.value, w, h);
    }
  }

  /** The effect of a byte stream. */
  ghost function FeedAll(t: Term, bytes: seq<Byte>, w: nat, h: nat): (r: Term)
    requires WellFormed(t.screen, w, h)
    ensures WellFormed(r.screen, w, h)
  {
    if bytes == [] then t
    else
      var u := FeedAll(t, bytes[..|bytes| - 1], w, h);
      FeedKeeps(u, bytes[|bytes| - 1], w, h);
      Feed(u, bytes[|bytes| - 1], w, h)
  }
}
