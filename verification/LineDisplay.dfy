/** What the control sequences that the line editor emits do to the line under the cursor.
 */
module LineDisplay {
  import opened Basics
  import opened Ansi
  import opened Screens

  const ESC: Byte := 0x1B

  predicate Printable(c: int) {
    32 <= c < 127
  }

  /** One-byte characters that take one cell each. */
  ghost predicate IsText(s: seq<Byte>) {
    forall c :: c in s ==> Printable(c)
  }

  // ---- byte streams ----

  lemma {:induction false} FeedAppend(t: Term, a: seq<Byte>, b: seq<Byte>, w: nat, h: nat)
    requires WellFormed(t.screen, w, h)
    ensures FeedAll(t, a + b, w, h) == FeedAll(FeedAll(t, a, w, h), b, w, h)
    decreases |b|
  {
    if b == [] {
      assert a + b == a;
    } else {
      var b0 := b[..|b| - 1];
      FeedAppend(t, a, b0, w, h);
      assert (a + b)[..|a + b| - 1] == a + b0;
    }
  }

  lemma FeedOne(t: Term, b: Byte, w: nat, h: nat)
    requires WellFormed(t.screen, w, h)
    ensures FeedAll(t, [b], w, h) == Feed(t, b, w, h)
  {
    assert [b][..0] == [];
    assert FeedAll(t, [], w, h) == t;
  }

  // ---- the line under the cursor ----

  /** The characters of the cursor's line. */
  ghost function Chars(s: Screen): seq<nat>
    requires s.cy < |s.rows|
  {
    seq(|s.rows[s.cy]|, x requires 0 <= x < |s.rows[s.cy]| => s.rows[s.cy][x].ch)
  }

  /** Screen `s'` differs from `s` in the characters of the cursor's line and in the column. */
  ghost predicate LineBecomes(s: Screen, s': Screen, chars: seq<nat>, cx: nat) {
    && s.cy < |s.rows| && s'.cy == s.cy && |s'.rows| == |s.rows|
    && (forall y :: 0 <= y < |s.rows| && y != s.cy ==> s'.rows[y] == s.rows[y])
    && Chars(s') == chars && s'.cx == cx
  }

  /** A printable character away from the last column. */
  lemma TypeOne(t: Term, c: Byte, w: nat, h: nat)
    requires WellFormed(t.screen, w, h) && t.pending == Nothing && Printable(c) && t.screen.cx + 1 < w
    ensures var t' := Feed(t, c, w, h);
            && t'.pending == Nothing
            && LineBecomes(t.screen, t'.screen, Chars(t.screen)[t.screen.cx := c], t.screen.cx + 1)
  {
    var s := t.screen;
    var s' := Feed(t, c, w, h).screen;
    assert s' == Put(s, Cell(c, s.fg, s.bg)).(cx := s.cx + 1);
    assert Chars(s') == Chars(s)[s.cx := c];
  }

  /** Text that stays clear of the last column replaces what was there. */
  lemma {:induction false} TypeText(t: Term, text: seq<Byte>, w: nat, h: nat)
    requires WellFormed(t.screen, w, h) && t.pending == Nothing && IsText(text) && t.screen.cx + |text| < w
    ensures var t' := FeedAll(t, text, w, h); var cx := t.screen.cx;
            && |Chars(t.screen)| == w
            && t'.pending == Nothing
            && LineBecomes(t.screen, t'.screen, Chars(t.screen)[..cx] + text + Chars(t.screen)[cx + |text|..], cx + |text|)
    decreases |text|
  {
    var s, cx := t.screen, t.screen.cx;
    if text == [] {
      assert Chars(s)[..cx] + [] + Chars(s)[cx..] == Chars(s);
    } else {
      var n := |text| - 1;
      var text0, c := text[..n], text[n];
      assert forall b :: b in text0 ==> b in text;
      TypeText(t, text0, w, h);
      var u := FeedAll(t, text0, w, h);
      assert c in text;
      TypeOne(u, c, w, h);
      TypedChars(Chars(s), cx, text);
      LineTwice(s, u.screen, Feed(u, c, w, h).screen, Chars(u.screen), u.screen.cx, Chars(u.screen)[u.screen.cx := c], cx + |text|);
    }
  }

  /** The same, for a line that is known to be `row`. */
  lemma TypeRow(t: Term, row: seq<nat>, text: seq<Byte>, w: nat, h: nat) returns (t': Term)
    requires WellFormed(t.screen, w, h) && t.pending == Nothing && IsText(text) && t.screen.cx + |text| < w
    requires Chars(t.screen) == row
    ensures |row| == w && t' == FeedAll(t, text, w, h) && WellFormed(t'.screen, w, h) && t'.pending == Nothing
    ensures LineBecomes(t.screen, t'.screen, row[..t.screen.cx] + text + row[t.screen.cx + |text|..], t.screen.cx + |text|)
  {
    TypeText(t, text, w, h);
    t' := FeedAll(t, text, w, h);
  }

  lemma TypedChars(chars: seq<nat>, cx: nat, text: seq<Byte>)
    requires text != [] && cx + |text| < |chars|
    ensures var n := |text| - 1;
            (chars[..cx] + text[..n] + chars[cx + n..])[cx + n := text[n]] == chars[..cx] + text + chars[cx + n + 1..]
  {
  }

  lemma LineTwice(s: Screen, u: Screen, v: Screen, chars: seq<nat>, cx: nat, chars': seq<nat>, cx': nat)
    requires LineBecomes(s, u, chars, cx) && LineBecomes(u, v, chars', cx')
    ensures LineBecomes(s, v, chars', cx')
  {
  }

  // ---- control sequences ----

  lemma {:induction false} CsiParams(t: Term, params: seq<Byte>, w: nat, h: nat)
    requires WellFormed(t.screen, w, h) && t.pending == Nothing && |params| < MAX_CSI_LENGTH
    requires forall b :: b in params ==> !IsFinal(b)
    ensures FeedAll(t, [ESC, 91] + params, w, h) == Term(Csi(params), t.screen)
    decreases |params|
  {
    if params == [] {
      assert [ESC, 91] + params == [ESC] + [91];
      CsiStart(t, w, h);
    } else {
      var n := |params| - 1;
      var p0, b := params[..n], params[n];
      assert forall c :: c in p0 ==> c in params;
      CsiParams(t, p0, w, h);
      assert [ESC, 91] + params == ([ESC, 91] + p0) + [b];
      FeedAppend(t, [ESC, 91] + p0, [b], w, h);
      assert b in params;
      CsiParam(p0, b, t.screen, w, h);
      assert p0 + [b] == params;
    }
  }

  lemma CsiStart(t: Term, w: nat, h: nat)
    requires WellFormed(t.screen, w, h) && t.pending == Nothing
    ensures FeedAll(t, [ESC] + [91], w, h) == Term(Csi([]), t.screen)
  {
    FeedAppend(t, [ESC], [91], w, h);
    FeedOne(t, ESC, w, h);
    FeedOne(Feed(t, ESC, w, h), 91, w, h);
  }

  lemma CsiParam(p0: seq<Byte>, b: Byte, s: Screen, w: nat, h: nat)
    requires WellFormed(s, w, h) && |p0| < MAX_CSI_LENGTH && !IsFinal(b)
    ensures FeedAll(Term(Csi(p0), s), [b], w, h) == Term(Csi(p0 + [b]), s)
  {
    FeedOne(Term(Csi(p0), s), b, w, h);
  }

  /** A whole sequence does what its final byte says. */
  lemma CsiDoes(t: Term, params: seq<Byte>, final: Byte, w: nat, h: nat)
    requires WellFormed(t.screen, w, h) && t.pending == Nothing && |params| < MAX_CSI_LENGTH
    requires (forall b :: b in params ==> !IsFinal(b)) && IsFinal(final)
    ensures var a := FinalAction(params, final);
            FeedAll(t, [ESC, 91] + params + [final], w, h)
            == Term(Nothing, if a.Some? then Apply(t.screen, a.value, w, h) else t.screen)
  {
    CsiParams(t, params, w, h);
    FeedAppend(t, [ESC, 91] + params, [final], w, h);
    FeedOne(Term(Csi(params), t.screen), final, w, h);
  }

  function Power10(k: nat): nat {
    if k == 0 then 1 else 10 * Power10(k - 1)
  }

  lemma {:induction false} DigitsShort(n: nat, k: nat)
    requires n < Power10(k) && k > 0
    ensures |Digits(n)| <= k
    decreases k
  {
    if n >= 10 {
      DigitsShort(n / 10, k - 1);
    }
  }

  lemma DigitsAreParams(n: nat)
    requires n <= U32_MAX
    ensures |Digits(n)| < MAX_CSI_LENGTH && forall b :: b in Digits(n) ==> !IsFinal(b)
  {
    assert Power10(5) == 100000;
    assert Power10(10) == 100000 * 100000;
    DigitsShort(n, 10);
  }

  /** `\\x1b[` number and letter, as the editor writes it. */
  function Move(n: nat, letter: Byte): seq<Byte> {
    [ESC, 91] + Digits(n) + [letter]
  }

  /** Cursor left (section 8.3.18 of ECMA-48), by a number of columns; zero is no move. */
  lemma MoveLeft(t: Term, n: nat, w: nat, h: nat)
    requires WellFormed(t.screen, w, h) && t.pending == Nothing && n <= U32_MAX && n <= t.screen.cx
    ensures var t' := FeedAll(t, Move(n, 68), w, h);
            t'.pending == Nothing && LineBecomes(t.screen, t'.screen, Chars(t.screen), t.screen.cx - n)
  {
    DigitsAreParams(n);
    NumberRoundTrip(n);
    CsiDoes(t, Digits(n), 68, w, h);
  }

  /** Cursor right (section 8.3.20 of ECMA-48). */
  lemma MoveRight(t: Term, n: nat, w: nat, h: nat)
    requires WellFormed(t.screen, w, h) && t.pending == Nothing && n <= U32_MAX && t.screen.cx + n < w
    ensures FeedAll(t, Move(n, 67), w, h) == Term(Nothing, t.screen.(cx := t.screen.cx + n))
  {
    DigitsAreParams(n);
    NumberRoundTrip(n);
    CsiDoes(t, Digits(n), 67, w, h);
  }

  lemma StepLeft(t: Term, w: nat, h: nat)
    requires WellFormed(t.screen, w, h) && t.pending == Nothing && t.screen.cx > 0
    ensures var t' := FeedAll(t, [ESC, 91, 68], w, h);
            t'.pending == Nothing && LineBecomes(t.screen, t'.screen, Chars(t.screen), t.screen.cx - 1)
  {
    CsiDoes(t, [], 68, w, h);
    assert [ESC, 91] + [] + [68] == [ESC, 91, 68];
  }

  lemma StepRight(t: Term, w: nat, h: nat)
    requires WellFormed(t.screen, w, h) && t.pending == Nothing && t.screen.cx + 1 < w
    ensures var t' := FeedAll(t, [ESC, 91, 67], w, h);
            t'.pending == Nothing && LineBecomes(t.screen, t'.screen, Chars(t.screen), t.screen.cx + 1)
  {
    CsiDoes(t, [], 67, w, h);
    assert [ESC, 91] + [] + [67] == [ESC, 91, 67];
  }

  function Spaces(n: nat): seq<nat> {
    seq(n, i => 32)
  }

  /** Erase to the end of the line (section 8.3.41 of ECMA-48). */
  lemma EraseRest(t: Term, w: nat, h: nat)
    requires WellFormed(t.screen, w, h) && t.pending == Nothing && (h >= 2 || t.screen.cx > 0)
    ensures var t' := FeedAll(t, [ESC, 91, 75], w, h); var cx := t.screen.cx;
            && |Chars(t.screen)| == w && t'.pending == Nothing
            && LineBecomes(t.screen, t'.screen, Chars(t.screen)[..cx] + Spaces(w - cx), cx)
  {
    CsiDoes(t, [], 75, w, h);
    assert [ESC, 91] + [] + [75] == [ESC, 91, 75];
    EraseApplied(t.screen, w, h);
    EraseChars(t.screen, w, h);
  }

  lemma EraseApplied(s: Screen, w: nat, h: nat)
    requires WellFormed(s, w, h) && (h >= 2 || s.cx > 0)
    ensures FinalAction([], 75) == Some(EraseToLineEnd) && Apply(s, EraseToLineEnd, w, h) == Erase(s, w)
  {
  }

  lemma EraseChars(s: Screen, w: nat, h: nat)
    requires WellFormed(s, w, h)
    ensures |Chars(s)| == w && LineBecomes(s, Erase(s, w), Chars(s)[..s.cx] + Spaces(w - s.cx), s.cx)
  {
    var s', row := Erase(s, w), s.rows[s.cy];
    var chars := Chars(s)[..s.cx] + Spaces(w - s.cx);
    assert s'.rows[s.cy] == row[..s.cx] + Blanks(s, w - s.cx);
    assert |Chars(s')| == |chars|;
    forall x | 0 <= x < w
      ensures Chars(s')[x] == chars[x]
    {
      if x < s.cx {
        assert s'.rows[s.cy][x] == row[x];
      } else {
        assert s'.rows[s.cy][x] == Blank(s);
      }
    }
  }
}
