/** What bytes do to the terminal, cell by cell: characters and their encoding, cursor movements,
    colours and erasing, each named by its bytes.
 */
module ScreenEffects {
  import opened Basics
  import opened Ansi
  import opened Screens
  import opened LineDisplay

  // ---- numbers ----

  /** Digits are decimal: each further one makes the number before it ten times as much. */
  lemma {:induction false} ValueConcat(d: seq<Byte>, e: seq<Byte>)
    requires forall b :: b in d + e ==> IsDigit(b)
    ensures (forall b :: b in d ==> IsDigit(b)) && (forall b :: b in e ==> IsDigit(b))
    ensures Value(d + e) == Value(d) * Power10(|e|) + Value(e)
    ensures |e| == 1 ==> 48 <= e[0] <= 57 && Value(e) == e[0] - 48
    decreases |e|
  {
    assert forall b :: b in d ==> b in d + e;
    assert forall b :: b in e ==> b in d + e;
    if e == [] {
      assert d + e == d;
    } else {
      var e0 := e[..|e| - 1];
      assert |e| == 1 ==> e0 == [];
      assert IsDigit(e[|e| - 1]);
      assert (d + e)[..|d + e| - 1] == d + e0;
      assert forall b :: b in d + e0 ==> b in d + e;
      ValueConcat(d, e0);
      TimesTen(Value(d), Power10(|e0|), Value(e0));
    }
  }

  lemma TimesTen(v: nat, p: nat, x: nat)
    ensures (v * p + x) * 10 == v * (10 * p) + x * 10
  {
  }

  // ---- characters ----

  /** The characters that take more than one byte. */
  predicate Scalar(ch: nat) {
    0x80 <= ch < 0x11_0000 && !(0xD800 <= ch < 0xE000)
  }

  /** How they are encoded (section 3 of RFC 3629). */
  function EncodeUtf8(ch: nat): seq<Byte>
    requires Scalar(ch)
  {
    if ch < 0x800 then [0xC0 + ch / 64, 0x80 + ch % 64]
    else if ch < 0x1_0000 then [0xE0 + ch / 64 / 64, 0x80 + ch / 64 % 64, 0x80 + ch % 64]
    else [0xF0 + ch / 64 / 64 / 64, 0x80 + ch / 64 / 64 % 64, 0x80 + ch / 64 % 64, 0x80 + ch % 64]
  }

  lemma Join64(n: nat)
    ensures n == (n / 64) * 64 + n % 64 && n % 64 < 64
  {
  }

  /** An encoded character is decoded. */
  lemma Utf8RoundTrip(ch: nat)
    requires Scalar(ch)
    ensures DecodeUtf8(EncodeUtf8(ch)) == ch
  {
    Join64(ch);
    Join64(ch / 64);
    Join64(ch / 64 / 64);
    if ch < 0x800 {
      TwoBytes(ch / 64, ch % 64);
    } else if ch < 0x1_0000 {
      ThreeBytes(ch / 64 / 64, ch / 64 % 64, ch % 64);
    } else {
      FourBytes(ch / 64 / 64 / 64, ch / 64 / 64 % 64, ch / 64 % 64, ch % 64);
    }
  }

  lemma TwoBytes(a: nat, b: nat)
    requires a < 32 && b < 64 && a * 64 + b >= 0x80
    ensures DecodeUtf8([0xC0 + a, 0x80 + b]) == a * 64 + b
  {
  }

  lemma ThreeBytes(a: nat, b: nat, c: nat)
    requires a < 16 && b < 64 && c < 64 && (a * 64 + b) * 64 + c >= 0x800 && !(0xD800 <= (a * 64 + b) * 64 + c < 0xE000)
    ensures DecodeUtf8([0xE0 + a, 0x80 + b, 0x80 + c]) == (a * 64 + b) * 64 + c
  {
  }

  lemma FourBytes(a: nat, b: nat, c: nat, d: nat)
    requires a < 8 && b < 64 && c < 64 && d < 64 && 0x1_0000 <= ((a * 64 + b) * 64 + c) * 64 + d < 0x11_0000
    ensures DecodeUtf8([0xF0 + a, 0x80 + b, 0x80 + c, 0x80 + d]) == ((a * 64 + b) * 64 + c) * 64 + d
  {
  }

  /** Bytes that encode no character come out as the replacement character. */
  lemma Utf8Exact(s: seq<Byte>)
    requires 2 <= |s| <= 4
    ensures var ch := DecodeUtf8(s);
            (Scalar(ch) && EncodeUtf8(ch) == s) || (ch == 0xFFFD && forall c :: Scalar(c) ==> EncodeUtf8(c) != s)
  {
    var ch := DecodeUtf8(s);
    forall c | Scalar(c) && EncodeUtf8(c) == s
      ensures c == ch
    {
      Utf8RoundTrip(c);
    }
    if ch != REPLACEMENT {
      DecodedIs(s);
    }
  }

  lemma DecodedIs(s: seq<Byte>)
    requires 2 <= |s| <= 4 && DecodeUtf8(s) != REPLACEMENT
    ensures Scalar(DecodeUtf8(s)) && EncodeUtf8(DecodeUtf8(s)) == s
  {
    var a: int, b: int := s[0], s[1];
    if |s| == 2 {
      Split64(a - 0xC0, b - 0x80);
    } else if |s| == 3 {
      var c: int := s[2];
      Split64((a - 0xE0) * 64 + (b - 0x80), c - 0x80);
      Split64(a - 0xE0, b - 0x80);
    } else {
      var c: int, d: int := s[2], s[3];
      Split64(((a - 0xF0) * 64 + (b - 0x80)) * 64 + (c - 0x80), d - 0x80);
      Split64((a - 0xF0) * 64 + (b - 0x80), c - 0x80);
      Split64(a - 0xF0, b - 0x80);
    }
  }

  lemma Split64(a: nat, b: nat)
    requires b < 64
    ensures (a * 64 + b) / 64 == a && (a * 64 + b) % 64 == b
  {
  }

  /** The bytes of a character put it on the screen. */
  lemma CharacterFed(t: Term, ch: nat, w: nat, h: nat)
    requires WellFormed(t.screen, w, h) && t.pending == Nothing && Scalar(ch)
    ensures FeedAll(t, EncodeUtf8(ch), w, h) == Term(Nothing, Screens.WriteChar(t.screen, ch, w, h))
  {
    var e := EncodeUtf8(ch);
    Utf8RoundTrip(ch);
    FirstByte(t, e, w, h);
    PartFed(t, e, |e| - 1, w, h);
    assert e == e[..|e| - 1] + [e[|e| - 1]];
    FeedAppend(t, e[..|e| - 1], [e[|e| - 1]], w, h);
    FeedOne(Term(Utf8(e[..|e| - 1], |e|), t.screen), e[|e| - 1], w, h);
  }

  ghost predicate Leads(e: seq<Byte>) {
    2 <= |e| <= 4 && e[0] >= 0xC0 && (|e| == if e[0] < 0xE0 then 2 else if e[0] < 0xF0 then 3 else 4)
  }

  lemma FirstByte(t: Term, e: seq<Byte>, w: nat, h: nat)
    requires WellFormed(t.screen, w, h) && t.pending == Nothing && Leads(e)
    ensures FeedAll(t, e[..1], w, h) == Term(Utf8(e[..1], |e|), t.screen)
  {
    assert e[..1] == [e[0]];
    FeedOne(t, e[0], w, h);
  }

  lemma {:induction false} PartFed(t: Term, e: seq<Byte>, n: nat, w: nat, h: nat)
    requires WellFormed(t.screen, w, h) && t.pending == Nothing && Leads(e) && 1 <= n < |e|
    ensures FeedAll(t, e[..n], w, h) == Term(Utf8(e[..n], |e|), t.screen)
  {
    if n == 1 {
      FirstByte(t, e, w, h);
    } else {
      PartFed(t, e, n - 1, w, h);
      assert e[..n] == e[..n - 1] + [e[n - 1]];
      FeedAppend(t, e[..n - 1], [e[n - 1]], w, h);
      FeedOne(Term(Utf8(e[..n - 1], |e|), t.screen), e[n - 1], w, h);
    }
  }

  /** So does a byte that is a character by itself. */
  lemma ByteFed(t: Term, b: Byte, w: nat, h: nat)
    requires WellFormed(t.screen, w, h) && t.pending == Nothing && b < 0xC0 && b != ESC
    ensures FeedAll(t, [b], w, h) == Term(Nothing, Screens.WriteChar(t.screen, b, w, h))
  {
    FeedOne(t, b, w, h);
  }

  // ---- characters on the screen ----

  /** Screen `s'` is `s` with cell `c` in column `x` of row `y`. */
  ghost predicate OneCell(rows: seq<seq<Cell>>, rows': seq<seq<Cell>>, x: nat, y: nat, c: Cell) {
    && |rows'| == |rows| && y < |rows| && |rows'[y]| == |rows[y]| && x < |rows[y]| && rows'[y][x] == c
    && (forall j :: 0 <= j < |rows| && j != y ==> rows'[j] == rows[j])
    && (forall k :: 0 <= k < |rows[y]| && k != x ==> rows'[y][k] == rows[y][k])
  }

  /** The cursor of `s'` is at the start of the row after row `y` of `rows`, which are shown; after the
      last one all rows have moved up by one and a blank one follows. */
  ghost predicate NextRow(rows: seq<seq<Cell>>, y: nat, s': Screen, w: nat)
    requires y < |rows|
  {
    && s'.cx == 0 && |s'.rows| == |rows|
    && if y + 1 < |rows| then s'.cy == y + 1 && s'.rows == rows
       else
         && s'.cy == y && (forall j :: 0 <= j < y ==> s'.rows[j] == rows[j + 1])
         && |s'.rows[y]| == w && (forall k :: 0 <= k < w ==> s'.rows[y][k] == Cell(32, s'.fg, s'.bg))
  }

  /** A character that can be seen goes into the cell under the cursor, in the current colours; behind
      the last column the cursor goes to the next row. */
  lemma VisiblePut(s: Screen, ch: nat, w: nat, h: nat)
    requires WellFormed(s, w, h) && ch >= 32 && ch != 127
    ensures var s', rows := Screens.WriteChar(s, ch, w, h), s.rows[s.cy := s.rows[s.cy][s.cx := Cell(ch, s.fg, s.bg)]];
            && OneCell(s.rows, rows, s.cx, s.cy, Cell(ch, s.fg, s.bg)) && s'.fg == s.fg && s'.bg == s.bg
            && if s.cx + 1 < w then s'.rows == rows && s'.cx == s.cx + 1 && s'.cy == s.cy else NextRow(rows, s.cy, s', w)
  {
  }

  /** A line feed does only that, a backspace moves the cursor back by one cell and stops at the
      first, and other control characters do nothing. */
  lemma ControlsDo(s: Screen, ch: nat, w: nat, h: nat)
    requires WellFormed(s, w, h) && (ch < 32 || ch == 127)
    ensures var s' := Screens.WriteChar(s, ch, w, h);
            && s'.fg == s.fg && s'.bg == s.bg
            && (ch == 10 ==> NextRow(s.rows, s.cy, s', w))
            && (ch == 8 ==> s'.rows == s.rows
                            && if s.cx > 0 then s'.cx + 1 == s.cx && s'.cy == s.cy
                               else if s.cy > 0 then s'.cx + 1 == w && s'.cy + 1 == s.cy
                               else s'.cx == 0 && s'.cy == 0)
            && (ch != 10 && ch != 8 ==> s' == s)
  {
  }

  // ---- control sequences ----

  /** A whole sequence that moves the cursor up by `n` rows; all moves stop at the edge. */
  lemma MovesUp(t: Term, n: nat, w: nat, h: nat)
    requires WellFormed(t.screen, w, h) && t.pending == Nothing && n <= U32_MAX
    ensures var s := t.screen; FeedAll(t, Move(n, 65), w, h) == Term(Nothing, s.(cy := if n <= s.cy then s.cy - n else 0))
  {
    DigitsAreParams(n);
    NumberRoundTrip(n);
    CsiDoes(t, Digits(n), 65, w, h);
  }

  /** Down ... */
  lemma MovesDown(t: Term, n: nat, w: nat, h: nat)
    requires WellFormed(t.screen, w, h) && t.pending == Nothing && n <= U32_MAX
    ensures var s := t.screen; FeedAll(t, Move(n, 66), w, h) == Term(Nothing, s.(cy := if s.cy + n < h then s.cy + n else h - 1))
  {
    DigitsAreParams(n);
    NumberRoundTrip(n);
    CsiDoes(t, Digits(n), 66, w, h);
  }

  /** ... to the right ... */
  lemma MovesRight(t: Term, n: nat, w: nat, h: nat)
    requires WellFormed(t.screen, w, h) && t.pending == Nothing && n <= U32_MAX
    ensures var s := t.screen; FeedAll(t, Move(n, 67), w, h) == Term(Nothing, s.(cx := if s.cx + n < w then s.cx + n else w - 1))
  {
    DigitsAreParams(n);
    NumberRoundTrip(n);
    CsiDoes(t, Digits(n), 67, w, h);
  }

  /** ... and to the left. */
  lemma MovesLeft(t: Term, n: nat, w: nat, h: nat)
    requires WellFormed(t.screen, w, h) && t.pending == Nothing && n <= U32_MAX
    ensures var s := t.screen; FeedAll(t, Move(n, 68), w, h) == Term(Nothing, s.(cx := if n <= s.cx then s.cx - n else 0))
  {
    DigitsAreParams(n);
    NumberRoundTrip(n);
    CsiDoes(t, Digits(n), 68, w, h);
  }

  /** Without a number it is a move by one. */
  lemma CursorSteps(t: Term, letter: Byte, w: nat, h: nat)
    requires WellFormed(t.screen, w, h) && t.pending == Nothing && 65 <= letter <= 68
    ensures FeedAll(t, [ESC, 91, letter], w, h) == FeedAll(t, Move(1, letter), w, h)
  {
    assert [ESC, 91] + [] + [letter] == [ESC, 91, letter];
    CsiDoes(t, [], letter, w, h);
    DigitsAreParams(1);
    NumberRoundTrip(1);
    CsiDoes(t, Digits(1), letter, w, h);
  }

  /** Erasing to the end of the line blanks the cells from the cursor on, in the current colours. */
  lemma ErasesRest(t: Term, w: nat, h: nat)
    requires WellFormed(t.screen, w, h) && t.pending == Nothing && (h >= 2 || t.screen.cx > 0)
    ensures var s, t' := t.screen, FeedAll(t, [ESC, 91, 75], w, h);
            && t' == Term(Nothing, s.(rows := t'.screen.rows)) && |t'.screen.rows| == h
            && (forall y :: 0 <= y < h && y != s.cy ==> t'.screen.rows[y] == s.rows[y])
            && |t'.screen.rows[s.cy]| == w
            && (forall x :: 0 <= x < w ==> t'.screen.rows[s.cy][x] == if x < s.cx then s.rows[s.cy][x] else Cell(32, s.fg, s.bg))
  {
    CsiDoes(t, [], 75, w, h);
    assert [ESC, 91] + [] + [75] == [ESC, 91, 75];
    EraseApplied(t.screen, w, h);
  }

  /** A sequence with an unknown letter does nothing ... */
  lemma UnknownDoesNothing(t: Term, params: seq<Byte>, final: Byte, w: nat, h: nat)
    requires WellFormed(t.screen, w, h) && t.pending == Nothing && |params| < 64 && (forall b :: b in params ==> b < 0x40 || b >= 0x7E)
    requires 0x40 <= final < 0x7E && final != 109 && final != 75 && !(65 <= final <= 68)
    ensures FeedAll(t, [ESC, 91] + params + [final], w, h) == t
  {
    CsiDoes(t, params, final, w, h);
  }

  /** ... nor does one of more than 63 bytes before its letter, of which nothing is left on the
      screen either ... */
  lemma LongDoesNothing(t: Term, params: seq<Byte>, final: Byte, w: nat, h: nat)
    requires WellFormed(t.screen, w, h) && t.pending == Nothing && |params| >= 64 && (forall b :: b in params ==> b < 0x40 || b >= 0x7E)
    requires 0x40 <= final < 0x7E
    ensures FeedAll(t, [ESC, 91] + params + [final], w, h) == t
  {
    LongPending(t, params, w, h);
    FeedAppend(t, [ESC, 91] + params, [final], w, h);
    FeedOne(Term(Csi(params[..64]), t.screen), final, w, h);
  }

  lemma {:induction false} LongPending(t: Term, params: seq<Byte>, w: nat, h: nat)
    requires WellFormed(t.screen, w, h) && t.pending == Nothing && |params| >= 64 && (forall b :: b in params ==> b < 0x40 || b >= 0x7E)
    ensures FeedAll(t, [ESC, 91] + params, w, h) == Term(Csi(params[..64]), t.screen)
    decreases |params|
  {
    var n := |params| - 1;
    var p0, b := params[..n], params[n];
    assert b in params && forall c :: c in p0 ==> c in params;
    assert [ESC, 91] + params == ([ESC, 91] + p0) + [b];
    FeedAppend(t, [ESC, 91] + p0, [b], w, h);
    if n == 63 {
      CsiParams(t, p0, w, h);
      FeedOne(Term(Csi(p0), t.screen), b, w, h);
      assert params[..64] == p0 + [b];
    } else {
      LongPending(t, p0, w, h);
      FeedOne(Term(Csi(p0[..64]), t.screen), b, w, h);
      assert params[..64] == p0[..64];
    }
  }

  /** ... nor does an escape with any byte but a bracket. */
  lemma EscapeDoesNothing(t: Term, b: Byte, w: nat, h: nat)
    requires WellFormed(t.screen, w, h) && t.pending == Nothing && b != 91
    ensures FeedAll(t, [ESC, b], w, h) == t
  {
    assert [ESC, b] == [ESC] + [b];
    FeedAppend(t, [ESC], [b], w, h);
    FeedOne(t, ESC, w, h);
    FeedOne(Term(Escape, t.screen), b, w, h);
  }

  // ---- colours ----

  const COLORS: seq<Color> :=
    [Black, Red, Green, Brown, Blue, Magenta, Cyan, LightGray, DarkGray, LightRed, LightGreen, Yellow, LightBlue, Pink, LightCyan, White]

  /** The numbers of the colours: eight and eight for the characters, and the same for what is behind
      them; all other numbers but 0 are without effect. */
  lemma ColorNumbers(n: nat)
    ensures ToAction(n) ==
            if n == 0 then Some(Reset)
            else if 30 <= n < 38 then Some(SetFg(COLORS[n - 30]))
            else if 90 <= n < 98 then Some(SetFg(COLORS[8 + n - 90]))
            else if 40 <= n < 48 then Some(SetBg(COLORS[n - 40]))
            else if 100 <= n < 108 then Some(SetBg(COLORS[8 + n - 100]))
            else None
  {
  }

  /** Colours are selected one after the other. */
  lemma {:induction false} ColoredConcat(s: Screen, a: seq<SgrAction>, b: seq<SgrAction>)
    ensures Colored(s, a + b) == Colored(Colored(s, a), b)
    decreases |b|
  {
    if b == [] {
      assert a + b == a;
    } else {
      assert (a + b)[..|a + b| - 1] == a + b[..|b| - 1];
      ColoredConcat(s, a, b[..|b| - 1]);
    }
  }

  lemma ColoredOne(s: Screen, c: Color)
    ensures Colored(s, [SetFg(c)]) == s.(fg := c) && Colored(s, [SetBg(c)]) == s.(bg := c)
    ensures Colored(s, [Reset]) == s.(fg := White, bg := Black)
  {
    assert [SetFg(c)][..0] == [] && [SetBg(c)][..0] == [] && [Reset][..0] == [];
  }

  /** The commands of a colour sequence, separated by semicolons, in their order. */
  lemma {:induction false} CommandsJoin(n: nat, rest: seq<Byte>)
    requires n <= U32_MAX
    ensures Commands(Digits(n) + [59] + rest, 0) == [n] + Commands(rest, 0)
  {
    CommandsOfDigits(n);
    CommandsBefore(Digits(n), 0, n, rest);
  }

  lemma {:induction false} CommandsBefore(d: seq<Byte>, current: nat, v: nat, rest: seq<Byte>)
    requires (forall b :: b in d ==> IsDigit(b)) && Commands(d, current) == [v]
    ensures Commands(d + [59] + rest, current) == [v] + Commands(rest, 0)
    decreases |d|
  {
    var all := d + [59] + rest;
    if d == [] {
      assert all[0] == 59 && all[1..] == rest;
    } else {
      assert all[0] == d[0] && all[1..] == d[1..] + [59] + rest && IsDigit(d[0]);
      CommandsBefore(d[1..], Saturated(Saturated(current * 10) + (d[0] - 48)), v, rest);
    }
  }

  lemma ColorSequence(n: nat)
    requires n <= U32_MAX
    ensures var a := ToAction(n); FinalAction(Digits(n), 109) == Some(Sgr(if a.Some? then [a.value] else []))
  {
    CommandsOfDigits(n);
    var cmds := [n];
    var a := ToAction(n);
    assert cmds[..0] == [] && FirstEight(cmds) == cmds;
    assert Actions(cmds) == [] + (if a.Some? then [a.value] else []) == if a.Some? then [a.value] else [];
  }

  /** A whole colour sequence with one number changes the current colours, which are those of the
      characters that follow, and nothing else. */
  lemma SelectsColor(t: Term, n: nat, w: nat, h: nat)
    requires WellFormed(t.screen, w, h) && t.pending == Nothing && n <= U32_MAX
    ensures var a := ToAction(n);
            FeedAll(t, Move(n, 109), w, h) == Term(Nothing,
              if a.None? then t.screen
              else match a.value
                   case Reset => t.screen.(fg := White, bg := Black)
                   case SetFg(c) => t.screen.(fg := c)
                   case SetBg(c) => t.screen.(bg := c))
  {
    DigitsAreParams(n);
    ColorSequence(n);
    CsiDoes(t, Digits(n), 109, w, h);
    var a := ToAction(n);
    ColoredOne(t.screen, if a.Some? && !a.value.Reset? then a.value.color else White);
  }
}
