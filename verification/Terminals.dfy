/** The terminal as it is stored: a ring of lines in one flat buffer, with the number of the line
    that is on top.
 */
module Terminals {
  import opened Basics
  import opened Ansi
  import S = Screens

  type Cell = S.Cell

  // ---- the flat buffer ----

  /** Where line `r` of the buffer starts. */
  function LineStart(r: nat, w: nat): nat {
    if r == 0 then 0 else LineStart(r - 1, w) + w
  }

  lemma {:induction false} LineStartIsProduct(r: nat, w: nat)
    ensures LineStart(r, w) == r * w
  {
    if r > 0 {
      LineStartIsProduct(r - 1, w);
      assert r * w == (r - 1) * w + w;
    }
  }

  lemma {:induction false} LineStartGrows(r: nat, s: nat, w: nat)
    requires r < s
    ensures LineStart(r, w) + w <= LineStart(s, w)
    decreases s
  {
    if r < s - 1 {
      LineStartGrows(r, s - 1, w);
    }
  }

  /** The line of the buffer that is shown as line `y`. */
  function Line(y: nat, top: nat, h: nat): nat {
    if y + top >= h then y + top - h else y + top
  }

  /** The buffer shows `row` as line `r` of the buffer. */
  ghost predicate Holds(flat: seq<Cell>, w: nat, r: nat, row: seq<Cell>) {
    && |row| == w && LineStart(r, w) + w <= |flat|
    && forall x :: 0 <= x < w ==> flat[LineStart(r, w) + x] == row[x]
  }

  ghost predicate Shows(flat: seq<Cell>, w: nat, h: nat, top: nat, rows: seq<seq<Cell>>) {
    && top < h && |rows| == h && |flat| == LineStart(h, w)
    && forall y :: 0 <= y < h ==> Holds(flat, w, Line(y, top, h), rows[y])
  }

  /** A range of the buffer is overwritten. */
  ghost predicate Overwrites(flat: seq<Cell>, flat': seq<Cell>, from: nat, to: nat, c: Cell) {
    && |flat'| == |flat|
    && forall i :: 0 <= i < |flat| ==> flat'[i] == if from <= i < to then c else flat[i]
  }

  /** Lines other than the one written to are as they were. */
  lemma OtherLineHolds(flat: seq<Cell>, flat': seq<Cell>, w: nat, r: nat, q: nat, row: seq<Cell>, from: nat, to: nat, c: Cell)
    requires Holds(flat, w, q, row) && q != r && LineStart(r, w) <= from && to <= LineStart(r, w) + w
    requires Overwrites(flat, flat', from, to, c)
    ensures Holds(flat', w, q, row)
  {
    if q < r {
      LineStartGrows(q, r, w);
    } else {
      LineStartGrows(r, q, w);
    }
  }

  /** Overwriting columns `a` up to `b` of the line shown as `y`. */
  lemma OverwriteShows(flat: seq<Cell>, flat': seq<Cell>, w: nat, h: nat, top: nat, rows: seq<seq<Cell>>, y: nat, a: nat, b: nat, c: Cell)
    requires Shows(flat, w, h, top, rows) && y < h && a <= b <= w
    requires var start := LineStart(Line(y, top, h), w); Overwrites(flat, flat', start + a, start + b, c)
    ensures |rows[y]| == w
    ensures Shows(flat', w, h, top, rows[y := rows[y][..a] + S.Repeat(c, b - a) + rows[y][b..]])
  {
    var r := Line(y, top, h);
    var start := LineStart(r, w);
    assert Holds(flat, w, r, rows[y]);
    var row' := rows[y][..a] + S.Repeat(c, b - a) + rows[y][b..];
    var rows' := rows[y := row'];
    forall z | 0 <= z < h
      ensures Holds(flat', w, Line(z, top, h), rows'[z])
    {
      assert Holds(flat, w, Line(z, top, h), rows[z]);
      if z != y {
        OtherLineHolds(flat, flat', w, r, Line(z, top, h), rows[z], start + a, start + b, c);
      } else {
        assert forall x :: 0 <= x < w ==> flat'[start + x] == row'[x];
      }
    }
  }

  /** Overwriting a line from column `a` on. */
  lemma EraseShows(flat: seq<Cell>, flat': seq<Cell>, w: nat, h: nat, top: nat, rows: seq<seq<Cell>>, y: nat, a: nat, c: Cell)
    requires Shows(flat, w, h, top, rows) && y < h && a <= w
    requires var start := LineStart(Line(y, top, h), w); Overwrites(flat, flat', start + a, start + w, c)
    ensures |rows[y]| == w
    ensures Shows(flat', w, h, top, rows[y := rows[y][..a] + S.Repeat(c, w - a)])
  {
    OverwriteShows(flat, flat', w, h, top, rows, y, a, w, c);
    assert rows[y][..a] + S.Repeat(c, w - a) + rows[y][w..] == rows[y][..a] + S.Repeat(c, w - a);
  }

  /** Moving the top down by one line and blanking the line that was on top. */
  lemma ScrollShows(flat: seq<Cell>, flat': seq<Cell>, w: nat, h: nat, top: nat, rows: seq<seq<Cell>>, c: Cell)
    requires Shows(flat, w, h, top, rows)
    requires Overwrites(flat, flat', LineStart(top, w), LineStart(top, w) + w, c)
    ensures Shows(flat', w, h, Line(1, top, h), rows[1..] + [S.Repeat(c, w)])
  {
    var top' := Line(1, top, h);
    var rows' := rows[1..] + [S.Repeat(c, w)];
    assert Holds(flat, w, Line(0, top, h), rows[0]);
    forall z | 0 <= z < h
      ensures Holds(flat', w, Line(z, top', h), rows'[z])
    {
      if z < h - 1 {
        assert Holds(flat, w, Line(z + 1, top, h), rows[z + 1]);
        assert Line(z, top', h) == Line(z + 1, top, h);
        OtherLineHolds(flat, flat', w, top, Line(z + 1, top, h), rows[z + 1], LineStart(top, w), LineStart(top, w) + w, c);
      } else {
        assert Line(z, top', h) == top;
      }
    }
  }

  /** Once the top has moved, the range from the last line to the next is the old top line. */
  lemma ScrollRange(top: nat, w: nat, h: nat)
    requires top < h && h >= 2 && w > 0
    ensures var t := Line(1, top, h);
            && Line(h - 1, t, h) == top
            && (if top + 1 < h then LineStart(Line(h, t, h), w) == LineStart(top, w) + w
                else LineStart(Line(h, t, h), w) == 0 && LineStart(top, w) + w == LineStart(h, w))
    ensures top + 1 == h ==> LineStart(top, w) > 0
  {
    if top > 0 {
      LineStartGrows(0, top, w);
    }
  }

  // ---- the terminal ----

  class Terminal {
    const w: nat
    const h: nat
    const buf: array<Cell>
    const parser: Parser
    var top: nat
    var cx: nat
    var cy: nat
    var fg: Color
    var bg: Color

    /** The lines as they are shown. */
    ghost var rows: seq<seq<Cell>>

    ghost predicate Valid()
      reads this, buf, parser
    {
      && parser.Valid() && cx < w && cy < h
      && Shows(buf[..], w, h, top, rows)
    }

    ghost function Screen(): S.Screen
      reads this
    {
      S.Screen(rows, cx, cy, fg, bg)
    }

    constructor (width: nat, height: nat)
      requires width > 0 && height > 0
      ensures Valid() && w == width && h == height && fresh(buf) && fresh(parser)
      ensures parser.Pending() == Nothing
      ensures Screen() == S.Screen(seq(height, y => S.Repeat(S.Cell(32, White, Black), width)), 0, 0, White, Black)
    {
      var blank := S.Cell(32, White, Black);
      w, h := width, height;
      var b := new Cell[LineStart(height, width)](i => blank);
      buf := b;
      var p := new Parser();
      parser := p;
      top, cx, cy, fg, bg := 0, 0, 0, White, Black;
      rows := seq(height, y => S.Repeat(S.Cell(32, White, Black), width));
      new;
      forall y | 0 <= y < h
        ensures Holds(buf[..], w, Line(y, top, h), rows[y])
      {
        LineStartGrows(y, h, w);
      }
    }

    /** Blanks a range of the buffer, which wraps around when its end comes before its start. */
    method ClearRange(start: nat, end: nat)
      requires start <= buf.Length && end <= buf.Length
      modifies buf
      ensures forall i :: 0 <= i < buf.Length ==>
                buf[i] == if (start <= i < end) || (end < start && (i < end || start <= i)) then S.Cell(32, fg, bg) else old(buf[i])
    {
      var c := S.Cell(32, fg, bg);
      if start <= end {
        for i := start to end
          invariant forall j :: 0 <= j < buf.Length ==> buf[j] == if start <= j < i then c else old(buf[j])
        {
          buf[i] := c;
        }
      } else {
        for i := start to buf.Length
          invariant forall j :: 0 <= j < buf.Length ==> buf[j] == if start <= j < i then c else old(buf[j])
        {
          buf[i] := c;
        }
        for i := 0 to end
          invariant forall j :: 0 <= j < buf.Length ==> buf[j] == if j < i || start <= j then c else old(buf[j])
        {
          buf[i] := c;
        }
      }
    }

    ghost function Off(x: nat, y: nat): nat
      reads this
    {
      LineStart(Line(y, top, h), w) + x
    }

    /** Where column `x` of line `y` is in the buffer. */
    method Offset(x: nat, y: nat) returns (k: nat)
      ensures k == Off(x, y)
    {
      var r := y + top;
      if r >= h {
        r := r - h;
      }
      LineStartIsProduct(r, w);
      k := r * w + x;
    }

    /** Moves the top down by one line and blanks the line that was on top. */
    method ClearOldTop()
      requires top < h && h >= 2 && w > 0 && buf.Length == LineStart(h, w)
      modifies this`top, buf
      ensures top == Line(1, old(top), h)
      ensures Overwrites(old(buf[..]), buf[..], LineStart(old(top), w), LineStart(old(top), w) + w, S.Cell(32, fg, bg))
    {
      LineStartGrows(top, h, w);
      ScrollRange(top, w, h);
      top := if top + 1 >= h then top + 1 - h else top + 1;
      var start := Offset(0, h - 1);
      var end := Offset(0, h);
      ClearRange(start, end);
    }

    /** Scrolls by one line, which the cursor follows. */
    method ScrollUp()
      requires parser.Valid() && w > 0 && Shows(buf[..], w, h, top, rows) && cy == h
      modifies this, buf
      ensures Valid() && Screen() == S.Screen(old(rows)[1..] + [S.Repeat(S.Cell(32, fg, bg), w)], 0, h - 1, old(fg), old(bg))
    {
      ghost var flat := buf[..];
      var c := S.Cell(32, fg, bg);
      if h == 1 {
        LineStartGrows(top, h, w);
        ClearRange(0, buf.Length);
        cx, cy := 0, 0;
      } else {
        cx, cy := 0, cy - 1;
        ClearOldTop();
      }
      assert Overwrites(flat, buf[..], LineStart(old(top), w), LineStart(old(top), w) + w, c);
      ScrollShows(flat, buf[..], w, h, old(top), rows, c);
      rows := rows[1..] + [S.Repeat(c, w)];
    }

    method NewLine()
      requires parser.Valid() && cx <= w && w > 0 && cy < h && Shows(buf[..], w, h, top, rows)
      modifies this, buf
      ensures Valid() && Screen() == S.NewLine(old(Screen()), w)
    {
      cx, cy := 0, cy + 1;
      if cy >= h {
        ScrollUp();
      }
    }

    method WriteChar(ch: nat)
      requires Valid()
      modifies this, buf
      ensures Valid() && S.WellFormed(old(Screen()), w, h) && Screen() == S.WriteChar(old(Screen()), ch, w, h)
    {
      ScreenWellFormed();
      if ch == 10 {
        NewLine();
      } else if ch == 8 {
        if cx > 0 {
          cx := cx - 1;
        } else if cy > 0 {
          cx, cy := w - 1, cy - 1;
        }
      } else if ch >= 32 && ch != 127 {
        PutCell(S.Cell(ch, fg, bg));
        cx := cx + 1;
        if cx >= w {
          NewLine();
        }
      }
    }

    /** Writes the cell under the cursor. */
    method PutCell(c: Cell)
      requires Valid()
      modifies this`rows, buf
      ensures Valid() && cy < |old(rows)| && cx < |old(rows)[cy]| && rows == old(rows)[cy := old(rows)[cy][cx := c]]
    {
      ghost var flat := buf[..];
      LineInside(cy);
      assert Holds(flat, w, Line(cy, top, h), rows[cy]);
      var at := Offset(cx, cy);
      buf[at] := c;
      assert Overwrites(flat, buf[..], at, at + 1, c);
      OverwriteShows(flat, buf[..], w, h, top, rows, cy, cx, cx + 1, c);
      assert rows[cy][..cx] + S.Repeat(c, 1) + rows[cy][cx + 1..] == rows[cy][cx := c];
      rows := rows[cy := rows[cy][cx := c]];
    }

    lemma LineInside(y: nat)
      requires Shows(buf[..], w, h, top, rows) && y < h
      ensures Line(y, top, h) < h && LineStart(Line(y, top, h), w) + w <= buf.Length
    {
      LineStartGrows(Line(y, top, h), h, w);
    }

    lemma ScreenWellFormed()
      requires Valid()
      ensures S.WellFormed(Screen(), w, h)
    {
      forall y | 0 <= y < h
        ensures |rows[y]| == w
      {
        assert Holds(buf[..], w, Line(y, top, h), rows[y]);
      }
    }

    /** Clears from the cursor to the start of the next line of the ring, which is nothing when that
        is the cursor itself. */
    method ClearFromCursor()
      requires Valid()
      modifies buf
      ensures var start := Off(cx, cy);
              if h == 1 && cx == 0 then buf[..] == old(buf[..])
              else Overwrites(old(buf[..]), buf[..], start, start - cx + w, S.Cell(32, fg, bg))
    {
      LineInside(cy);
      RangeOfLine(cy);
      var start := Offset(cx, cy);
      var end := Offset(0, cy + 1);
      ClearRange(start, end);
    }

    /** Erases to the end of the line, but for a terminal of one line with the cursor in front. */
    method EraseToLineEnd()
      requires Valid()
      modifies this`rows, buf
      ensures Valid() && S.WellFormed(old(Screen()), w, h) && Screen() == S.EraseAsWritten(old(Screen()), w, h)
    {
      ScreenWellFormed();
      ghost var flat := buf[..];
      ClearFromCursor();
      if h > 1 || cx > 0 {
        EraseShows(flat, buf[..], w, h, top, rows, cy, cx, S.Cell(32, fg, bg));
        rows := S.Erase(Screen(), w).rows;
      }
    }

    /** The next line of the ring starts right after line `y`, or at the start of the buffer. */
    lemma RangeOfLine(y: nat)
      requires Shows(buf[..], w, h, top, rows) && y < h && w > 0
      ensures var r := Line(y, top, h);
              if r + 1 < h then Off(0, y + 1) == LineStart(r, w) + w && Off(0, y + 1) <= buf.Length
              else Off(0, y + 1) == 0 && LineStart(r, w) + w == buf.Length
      ensures Line(y, top, h) > 0 ==> LineStart(Line(y, top, h), w) >= w
    {
      var r := Line(y, top, h);
      if r + 1 < h {
        LineStartGrows(r + 1, h, w);
      }
      if r > 0 {
        LineStartGrows(0, r, w);
      }
    }

    method SetColors(actions: seq<SgrAction>)
      requires Valid()
      modifies this`fg, this`bg
      ensures Valid() && Screen() == S.Colored(old(Screen()), actions)
    {
      ghost var s := Screen();
      for k := 0 to |actions|
        invariant Screen() == S.Colored(s, actions[..k])
      {
        assert actions[..k + 1][..k] == actions[..k];
        match actions[k]
        case Reset => fg, bg := White, Black;
        case SetFg(c) => fg := c;
        case SetBg(c) => bg := c;
      }
      assert actions[..|actions|] == actions;
    }

    method Perform(a: Action)
      requires Valid()
      modifies this, buf
      ensures Valid() && S.WellFormed(old(Screen()), w, h) && Screen() == S.Apply(old(Screen()), a, w, h)
    {
      ScreenWellFormed();
      match a
      case WriteChar(ch) => WriteChar(ch);
      case CursorUp(n) => cy := if n > cy then 0 else cy - n;
      case CursorDown(n) => cy := Least(cy + n, h - 1);
      case CursorRight(n) => cx := Least(cx + n, w - 1);
      case CursorLeft(n) => cx := if n > cx then 0 else cx - n;
      case EraseToLineEnd => EraseToLineEnd();
      case Sgr(actions) => SetColors(actions);
    }

    ghost function State(): S.Term
      requires parser.Valid()
      reads this, parser
    {
      S.Term(parser.Pending(), Screen())
    }

    /** For every byte the ring behaves as the plain grid does. */
    method WriteByte(b: Byte)
      requires Valid()
      modifies this, buf, parser
      ensures Valid() && S.WellFormed(old(State()).screen, w, h) && State() == S.Feed(old(State()), b, w, h)
    {
      ScreenWellFormed();
      var a := parser.Write(b);
      if a.Some? {
        Perform(a.value);
      }
    }

    /** And so for every stream of bytes. */
    method Write(bytes: seq<Byte>)
      requires Valid()
      modifies this, buf, parser
      ensures Valid() && S.WellFormed(old(State()).screen, w, h) && State() == S.FeedAll(old(State()), bytes, w, h)
    {
      ScreenWellFormed();
      ghost var t := State();
      for k := 0 to |bytes|
        invariant Valid() && State() == S.FeedAll(t, bytes[..k], w, h)
      {
        assert bytes[..k + 1][..k] == bytes[..k];
        WriteByte(bytes[k]);
      }
      assert bytes[..|bytes|] == bytes;
    }
  }
}
