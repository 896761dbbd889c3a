/** The line editor: what it keeps in memory, what it writes, and that the terminal shows the one
    because of the other.
 */
module LineEditors {
  import opened Basics
  import opened Ansi
  import opened Screens
  import opened LineDisplay
  import opened Terminals

  type Text = seq<Byte>

  const HISTORY_SIZE: nat := 64

  /** The line, the position in it, the position in the history, and the edits left behind at the
      other positions. */
  datatype Edit = Edit(s: Text, i: nat, pos: nat, saved: seq<Option<Text>>)

  datatype Key = Enter | Delete | Up | Down | Right | Left | Insert(c: Byte) | Ignored

  // ---- keys ----

  /** The keys in a stream of characters. A control sequence other than the arrows is skipped, and
      so are control characters and all that takes more than one byte. */
  function Keys(input: seq<nat>): (keys: seq<Key>)
    ensures forall k :: k in keys ==> KeyOk(k)
  {
    if input == [] then []
    else if input[0] == 0x1B then
      if |input| < 2 then [Ignored]
      else if input[1] != 91 then [Ignored] + Keys(input[2..])
      else if |input| < 3 then [Ignored]
      else [Arrow(input[2])] + Keys(input[3..])
    else [PlainKey(input[0])] + Keys(input[1..])
  }

  function Arrow(c: nat): Key {
    if c == 65 then Up else if c == 66 then Down else if c == 67 then Right else if c == 68 then Left else Ignored
  }

  function PlainKey(c: nat): Key {
    if c == 10 then Enter
    else if c == 127 then Delete
    else if c < 32 || c >= 128 then Ignored
    else Insert(c)
  }

  ghost predicate KeyOk(k: Key) {
    k.Insert? ==> Printable(k.c)
  }

  // ---- one key ----

  function Recall(e: Edit, history: seq<Text>, pos: nat): Text
    requires pos < |e.saved| && (e.saved[pos].Some? || pos < |history|)
  {
    if e.saved[pos].Some? then e.saved[pos].value else history[pos]
  }

  /** Leaves the edit behind and takes up the one at `pos`. */
  function GoTo(e: Edit, history: seq<Text>, pos: nat): Edit
    requires e.pos < |e.saved| && pos < |e.saved| && pos != e.pos && (e.saved[pos].Some? || pos < |history|)
  {
    var s := Recall(e, history, pos);
    Edit(s, |s|, pos, e.saved[e.pos := Some(e.s)][pos := None])
  }

  ghost predicate AllText(texts: seq<Text>) {
    forall k :: 0 <= k < |texts| ==> IsText(texts[k])
  }

  /** Every position between the current one and the end of the history has an edit left behind,
      so going down never asks the history for what it does not have. */
  ghost predicate EditOk(e: Edit, history: seq<Text>) {
    && |history| <= HISTORY_SIZE && |e.saved| == HISTORY_SIZE + 1
    && e.i <= |e.s| && e.pos <= |history| && IsText(e.s) && AllText(history)
    && (forall p :: 0 <= p < |e.saved| && e.saved[p].Some? ==> IsText(e.saved[p].value))
    && (forall p :: e.pos < p <= |history| ==> e.saved[p].Some?)
  }

  function Next(e: Edit, history: seq<Text>, k: Key): Edit
    requires e.i <= |e.s| && e.pos <= |history| < |e.saved|
    requires e.pos < |history| ==> e.saved[e.pos + 1].Some? || e.pos + 1 < |history|
  {
    match k
    case Enter => e
    case Ignored => e
    case Delete => if e.i == 0 then e else e.(s := e.s[..e.i - 1] + e.s[e.i..], i := e.i - 1)
    case Up => if e.pos == 0 then e else GoTo(e, history, e.pos - 1)
    case Down => if e.pos == |history| then e else GoTo(e, history, e.pos + 1)
    case Right => if e.i == |e.s| then e else e.(i := e.i + 1)
    case Left => if e.i == 0 then e else e.(i := e.i - 1)
    case Insert(c) => e.(s := e.s[..e.i] + [c] + e.s[e.i..], i := e.i + 1)
  }

  lemma GoToKeeps(e: Edit, history: seq<Text>, pos: nat)
    requires EditOk(e, history) && pos <= |history| && (pos == e.pos + 1 || pos + 1 == e.pos)
    ensures e.saved[pos].Some? || pos < |history|
    ensures EditOk(GoTo(e, history, pos), history)
  {
    var f := GoTo(e, history, pos);
    assert e.saved[pos].None? ==> IsText(history[pos]);
    forall p | 0 <= p < |f.saved| && f.saved[p].Some?
      ensures IsText(f.saved[p].value)
    {
      assert p == e.pos || f.saved[p] == e.saved[p];
    }
  }

  lemma NextKeeps(e: Edit, history: seq<Text>, k: Key)
    requires EditOk(e, history) && KeyOk(k)
    ensures EditOk(Next(e, history, k), history)
  {
    match k
    case Up => if e.pos > 0 { GoToKeeps(e, history, e.pos - 1); }
    case Down => if e.pos < |history| { GoToKeeps(e, history, e.pos + 1); }
    case _ =>
  }

  /** Up and then down brings back the text that was being edited. */
  lemma UpThenDown(e: Edit, history: seq<Text>)
    requires EditOk(e, history) && e.pos > 0
    ensures var u := Next(e, history, Up);
            && EditOk(u, history)
            && Next(u, history, Down).s == e.s && Next(u, history, Down).pos == e.pos
  {
    NextKeeps(e, history, Up);
  }

  // ---- keys, by their bytes, and what they do to a line ----

  /** A key in front of any input: what it is called and what follows it. */
  lemma KeyBytes(rest: seq<nat>, c: nat)
    ensures Keys([10] + rest) == [Enter] + Keys(rest) && Keys([127] + rest) == [Delete] + Keys(rest)
    ensures 32 <= c < 127 ==> Keys([c] + rest) == [Insert(c)] + Keys(rest)
    ensures (c < 32 && c != 10 && c != 27) || c > 127 ==> Keys([c] + rest) == [Ignored] + Keys(rest)
    ensures c != 91 ==> Keys([27, c] + rest) == [Ignored] + Keys(rest)
    ensures Keys([27, 91, c] + rest)
         == [if c == 65 then Up else if c == 66 then Down else if c == 67 then Right else if c == 68 then Left else Ignored] + Keys(rest)
  {
    assert ([10] + rest)[1..] == rest && ([127] + rest)[1..] == rest && ([c] + rest)[1..] == rest;
    assert ([27, c] + rest)[2..] == rest && ([27, 91, c] + rest)[3..] == rest;
  }

  /** Typing puts the character where the cursor was and the cursor behind it. */
  lemma InsertPuts(e: Edit, history: seq<Text>, c: Byte)
    requires EditOk(e, history)
    ensures var f := Next(e, history, Insert(c));
            && |f.s| == |e.s| + 1 && f.i == e.i + 1 && f.s[e.i] == c
            && (forall j :: 0 <= j < e.i ==> f.s[j] == e.s[j]) && (forall j :: e.i <= j < |e.s| ==> f.s[j + 1] == e.s[j])
            && f.pos == e.pos && f.saved == e.saved
  {
  }

  /** Deleting takes back what was typed, and typing what was deleted. */
  lemma DeleteUndoes(e: Edit, history: seq<Text>, c: Byte)
    requires EditOk(e, history)
    ensures Next(Next(e, history, Insert(c)), history, Delete) == e
    ensures e.i > 0 ==> Next(Next(e, history, Delete), history, Insert(e.s[e.i - 1])) == e
    ensures e.i == 0 ==> Next(e, history, Delete) == e
  {
    var f := Next(e, history, Insert(c));
    assert f.s[..f.i - 1] == e.s[..e.i] && f.s[f.i..] == e.s[e.i..];
    assert e.s[..e.i] + e.s[e.i..] == e.s;
    if e.i > 0 {
      var g := Next(e, history, Delete);
      assert g.s[..g.i] == e.s[..e.i - 1] && g.s[g.i..] == e.s[e.i..];
      assert e.s[..e.i - 1] + [e.s[e.i - 1]] + e.s[e.i..] == e.s;
    }
  }

  /** Left and right move the cursor by one, up to the ends of the line. */
  lemma SideKeysMove(e: Edit, history: seq<Text>)
    requires EditOk(e, history)
    ensures var l, r := Next(e, history, Left), Next(e, history, Right);
            && l == e.(i := l.i) && r == e.(i := r.i)
            && (if e.i == 0 then l.i == 0 else l.i + 1 == e.i) && (if e.i == |e.s| then r.i == |e.s| else r.i == e.i + 1)
  {
  }

  /** From a new line, going up by `n` shows the `n`th last line of the history, the cursor behind it. */
  lemma {:induction false} UpRecalls(e: Edit, history: seq<Text>, n: nat) returns (f: Edit)
    requires EditOk(e, history) && e.pos == |history| && 0 < n <= |history| && forall p :: 0 <= p < |history| ==> e.saved[p].None?
    ensures f == Ups(e, history, n) && EditOk(f, history)
    ensures f.s == history[|history| - n] && f.i == |f.s| && f.pos == |history| - n
    ensures forall p :: 0 <= p <= f.pos ==> f.saved[p].None?
  {
    var g := e;
    if n > 1 {
      g := UpRecalls(e, history, n - 1);
    }
    NextKeeps(g, history, Up);
    f := Next(g, history, Up);
  }

  function Ups(e: Edit, history: seq<Text>, n: nat): (f: Edit)
    requires EditOk(e, history)
    ensures EditOk(f, history)
  {
    if n == 0 then e
    else
      var g := Ups(e, history, n - 1);
      NextKeeps(g, history, Up);
      Next(g, history, Up)
  }

  /** The history is the last 64 lines. */
  lemma RememberIsLast(history: seq<Text>, s: Text)
    requires |history| <= 64
    ensures var all := history + [s]; Remember(history, s) == if |all| <= 64 then all else all[|all| - 64..]
  {
  }

  // ---- what is written ----

  function Replace(e: Edit, s': Text): seq<Byte> {
    (if e.s == [] then [] else Move(e.i, 68) + [ESC, 91, 75]) + s'
  }

  /** A character, the text behind it, and back over that text. */
  function Inserting(s: Text, i: nat, c: Byte): seq<Byte>
    requires i <= |s|
  {
    ([c] + s[i..]) + if i == |s| then [] else Move(|s| - i, 68)
  }

  /** One to the left, the text behind and a blank over what was there, and back. */
  function Deleting(s: Text, i: nat): seq<Byte>
    requires i <= |s|
  {
    [ESC, 91, 68] + (s[i..] + [32]) + Move(|s| - i + 1, 68)
  }

  /** What a key makes the editor write. */
  function Output(e: Edit, history: seq<Text>, k: Key): seq<Byte>
    requires e.i <= |e.s| && e.pos <= |history| < |e.saved|
    requires e.pos < |history| ==> e.saved[e.pos + 1].Some? || e.pos + 1 < |history|
  {
    match k
    case Enter => (if e.i == |e.s| then [] else Move(|e.s| - e.i, 67)) + [10]
    case Ignored => []
    case Delete => if e.i == 0 then [] else Deleting(e.s, e.i)
    case Up => if e.pos == 0 then [] else Replace(e, Recall(e, history, e.pos - 1))
    case Down => if e.pos == |history| then [] else Replace(e, Recall(e, history, e.pos + 1))
    case Right => if e.i == |e.s| then [] else [ESC, 91, 67]
    case Left => if e.i == 0 then [] else [ESC, 91, 68]
    case Insert(c) => Inserting(e.s, e.i, c)
  }

  // ---- what is shown ----

  /** A line: the prompt, the text, and blanks up to the last column. */
  function Full(prompt: seq<nat>, s: Text, w: nat): seq<nat>
    requires |prompt| + |s| <= w
  {
    prompt + s + Spaces(w - |prompt| - |s|)
  }

  ghost predicate OnScreen(t: Term, prompt: seq<nat>, s: Text, i: nat, w: nat, h: nat)
    requires t.screen.cy < |t.screen.rows| && |prompt| + |s| < w
  {
    && w <= U32_MAX && (h >= 2 || prompt != []) && t.pending == Nothing
    && Chars(t.screen) == Full(prompt, s, w) && t.screen.cx == |prompt| + i
  }

  /** The line is shown, with the cursor at position `i` of the text. */
  ghost predicate Displays(t: Term, prompt: seq<nat>, s: Text, i: nat, w: nat, h: nat) {
    && WellFormed(t.screen, w, h) && i <= |s| && |prompt| + |s| < w
    && forall k: nat {:trigger Peek(k)} :: Peek(k) ==> OnScreen(t, prompt, s, i, w, h)
  }

  lemma LeftShown(t: Term, prompt: seq<nat>, s: Text, i: nat, w: nat, h: nat)
    requires Displays(t, prompt, s, i, w, h) && i > 0
    ensures Displays(FeedAll(t, [ESC, 91, 68], w, h), prompt, s, i - 1, w, h)
  {
    assert Peek(0);
    StepLeft(t, w, h);
  }

  lemma RightShown(t: Term, prompt: seq<nat>, s: Text, i: nat, w: nat, h: nat)
    requires Displays(t, prompt, s, i, w, h) && i < |s|
    ensures Displays(FeedAll(t, [ESC, 91, 67], w, h), prompt, s, i + 1, w, h)
  {
    assert Peek(0);
    StepRight(t, w, h);
  }

  lemma BackShown(t: Term, prompt: seq<nat>, s: Text, i: nat, n: nat, w: nat, h: nat)
    requires Displays(t, prompt, s, i, w, h) && n <= i
    ensures Displays(FeedAll(t, Move(n, 68), w, h), prompt, s, i - n, w, h)
  {
    assert Peek(0);
    MoveLeft(t, n, w, h);
  }

  /** Typing over the line from the cursor on. */
  lemma TypedOver(prompt: seq<nat>, s: Text, i: nat, text: Text, s': Text, w: nat)
    requires i <= |s| && |prompt| + |s| <= w && |prompt| + |s'| <= w && |prompt| + i + |text| <= w
    requires i + |text| >= |s| && i + |text| >= |s'|
    requires s[..i] + text == s' + seq(i + |text| - |s'|, k => 32 as Byte)
    ensures TypedRow(Full(prompt, s, w), |prompt| + i, text, Full(prompt, s', w))
  {
    var row, cx := Full(prompt, s, w), |prompt| + i;
    var row' := row[..cx] + text + row[cx + |text|..];
    var both := s[..i] + text;
    forall x | 0 <= x < w
      ensures row'[x] == Full(prompt, s', w)[x]
    {
      if |prompt| <= x < cx + |text| {
        assert row'[x] == both[x - |prompt|];
      }
    }
  }

  /** The line is `row` and the cursor is in column `cx`. */
  ghost predicate Typed(t: Term, row: seq<nat>, cx: nat, w: nat, h: nat) {
    WellFormed(t.screen, w, h) && t.pending == Nothing && Chars(t.screen) == row && t.screen.cx == cx
  }

  ghost predicate TypedRow(row: seq<nat>, cx: nat, text: Text, row': seq<nat>) {
    cx + |text| <= |row| && row[..cx] + text + row[cx + |text|..] == row'
  }

  lemma TypeOnRow(t: Term, row: seq<nat>, text: Text, row': seq<nat>, cx: nat, w: nat, h: nat)
    requires Typed(t, row, cx, w, h) && IsText(text) && cx + |text| < w && TypedRow(row, cx, text, row')
    ensures Typed(FeedAll(t, text, w, h), row', cx + |text|, w, h)
  {
    var t' := TypeRow(t, row, text, w, h);
  }

  lemma OpenDisplay(t: Term, prompt: seq<nat>, s: Text, i: nat, w: nat, h: nat)
    requires Displays(t, prompt, s, i, w, h)
    ensures Typed(t, Full(prompt, s, w), |prompt| + i, w, h)
    ensures w <= U32_MAX && (h >= 2 || prompt != [])
  {
    assert Peek(0);
  }

  lemma CloseDisplay(t: Term, prompt: seq<nat>, s: Text, i: nat, w: nat, h: nat)
    requires i <= |s| && |prompt| + |s| < w && w <= U32_MAX && (h >= 2 || prompt != [])
    requires Typed(t, Full(prompt, s, w), |prompt| + i, w, h)
    ensures Displays(t, prompt, s, i, w, h)
  {
  }

  /** Typing `text` at position `i` leaves line `s'`, and the cursor behind the text. */
  lemma TypeShown(t: Term, prompt: seq<nat>, s: Text, i: nat, text: Text, s': Text, w: nat, h: nat)
    requires Displays(t, prompt, s, i, w, h) && IsText(text) && |prompt| + |s'| <= w && |prompt| + i + |text| < w
    requires TypedRow(Full(prompt, s, w), |prompt| + i, text, Full(prompt, s', w))
    ensures Typed(FeedAll(t, text, w, h), Full(prompt, s', w), |prompt| + i + |text|, w, h)
  {
    OpenDisplay(t, prompt, s, i, w, h);
    TypeOnRow(t, Full(prompt, s, w), text, Full(prompt, s', w), |prompt| + i, w, h);
  }

  lemma InsertShown(t: Term, prompt: seq<nat>, s: Text, i: nat, c: Byte, w: nat, h: nat)
    requires Displays(t, prompt, s, i, w, h) && IsText(s) && Printable(c) && |prompt| + |s| + 1 < w
    ensures Displays(FeedAll(t, Inserting(s, i, c), w, h), prompt, s[..i] + [c] + s[i..], i + 1, w, h)
  {
    var text, s' := [c] + s[i..], s[..i] + [c] + s[i..];
    assert s' == s[..i] + text;
    TypeAndBack(t, prompt, s, i, text, s', Inserting(s, i, c), w, h);
  }

  /** Typing text that replaces all from the edit position on, and going back over the old text. */
  lemma TypeAndBack(t: Term, prompt: seq<nat>, s: Text, i: nat, text: Text, s': Text, out: seq<Byte>, w: nat, h: nat)
    requires Displays(t, prompt, s, i, w, h) && IsText(s') && IsText(text) && |prompt| + |s'| < w
    requires i <= |s| && s' == s[..i] + text && |s'| == |s| + 1
    requires out == text + if i == |s| then [] else Move(|s| - i, 68)
    ensures Displays(FeedAll(t, out, w, h), prompt, s', i + 1, w, h)
  {
    InsertTyped(t, prompt, s, i, text, s', w, h);
    if i == |s| {
      assert out == text;
    } else {
      InsertBack(t, prompt, s', text, |s| - i, w, h);
    }
  }

  /** Typing text that replaces all from the edit position on. */
  lemma InsertTyped(t: Term, prompt: seq<nat>, s: Text, i: nat, text: Text, s': Text, w: nat, h: nat)
    requires Displays(t, prompt, s, i, w, h) && IsText(s') && IsText(text) && |prompt| + |s'| < w
    requires i <= |s| && s' == s[..i] + text && |s'| >= |s|
    ensures Displays(FeedAll(t, text, w, h), prompt, s', |s'|, w, h)
  {
    OpenDisplay(t, prompt, s, i, w, h);
    InsertRow(prompt, s, i, text, s', w);
    TypeShown(t, prompt, s, i, text, s', w, h);
    CloseDisplay(FeedAll(t, text, w, h), prompt, s', |s'|, w, h);
  }

  lemma InsertRow(prompt: seq<nat>, s: Text, i: nat, text: Text, s': Text, w: nat)
    requires i <= |s| && |prompt| + |s| <= w && |prompt| + |s'| <= w && i + |text| >= |s| && s[..i] + text == s'
    ensures TypedRow(Full(prompt, s, w), |prompt| + i, text, Full(prompt, s', w))
  {
    assert s' == s' + seq(0, k => 32 as Byte);
    TypedOver(prompt, s, i, text, s', w);
  }

  lemma InsertBack(t: Term, prompt: seq<nat>, s': Text, text: Text, n: nat, w: nat, h: nat)
    requires WellFormed(t.screen, w, h) && Displays(FeedAll(t, text, w, h), prompt, s', |s'|, w, h) && n <= |s'|
    ensures Displays(FeedAll(t, text + Move(n, 68), w, h), prompt, s', |s'| - n, w, h)
  {
    FeedAppend(t, text, Move(n, 68), w, h);
    BackShown(FeedAll(t, text, w, h), prompt, s', |s'|, n, w, h);
  }

  lemma DeleteShown(t: Term, prompt: seq<nat>, s: Text, i: nat, w: nat, h: nat)
    requires Displays(t, prompt, s, i, w, h) && IsText(s) && i > 0
    ensures Displays(FeedAll(t, Deleting(s, i), w, h), prompt, s[..i - 1] + s[i..], i - 1, w, h)
  {
    var text, s' := s[i..] + [32], s[..i - 1] + s[i..];
    var left: seq<Byte> := [ESC, 91, 68];
    LeftShown(t, prompt, s, i, w, h);
    DeleteRow(prompt, s, i, w);
    OpenDisplay(t, prompt, s, i, w, h);
    var t1 := FeedAll(t, left, w, h);
    TypeShown(t1, prompt, s, i - 1, text, s', w, h);
    DeleteBack(FeedAll(t1, text, w, h), prompt, s', |s| - i + 1, w, h);
    FeedAppend(t, left, text, w, h);
    FeedAppend(t, left + text, Move(|s| - i + 1, 68), w, h);
  }

  lemma DeleteRow(prompt: seq<nat>, s: Text, i: nat, w: nat)
    requires 0 < i <= |s| && |prompt| + |s| < w
    ensures TypedRow(Full(prompt, s, w), |prompt| + i - 1, s[i..] + [32], Full(prompt, s[..i - 1] + s[i..], w))
  {
    var text, s' := s[i..] + [32], s[..i - 1] + s[i..];
    assert s[..i - 1] + text == s' + seq(1, k => 32 as Byte);
    TypedOver(prompt, s, i - 1, text, s', w);
  }

  /** From one column behind the text back into it. */
  lemma DeleteBack(t: Term, prompt: seq<nat>, s: Text, n: nat, w: nat, h: nat)
    requires |prompt| + |s| < w && w <= U32_MAX && (h >= 2 || prompt != []) && 0 < n <= |s| + 1
    requires Typed(t, Full(prompt, s, w), |prompt| + |s| + 1, w, h)
    ensures Displays(FeedAll(t, Move(n, 68), w, h), prompt, s, |s| + 1 - n, w, h)
  {
    MoveLeft(t, n, w, h);
    CloseDisplay(FeedAll(t, Move(n, 68), w, h), prompt, s, |s| + 1 - n, w, h);
  }

  lemma EraseShown(t: Term, prompt: seq<nat>, s: Text, w: nat, h: nat)
    requires Displays(t, prompt, s, 0, w, h)
    ensures Displays(FeedAll(t, [ESC, 91, 75], w, h), prompt, [], 0, w, h)
  {
    assert Peek(0);
    EraseRest(t, w, h);
    var row := Full(prompt, s, w);
    assert row[..|prompt|] + Spaces(w - |prompt|) == Full(prompt, [], w);
  }

  /** Going back to the start of the text and erasing the rest of the line. */
  lemma ClearShown(t: Term, prompt: seq<nat>, s: Text, i: nat, w: nat, h: nat)
    requires Displays(t, prompt, s, i, w, h)
    ensures Displays(FeedAll(t, Move(i, 68) + [ESC, 91, 75], w, h), prompt, [], 0, w, h)
  {
    BackShown(t, prompt, s, i, i, w, h);
    EraseShown(FeedAll(t, Move(i, 68), w, h), prompt, s, w, h);
    FeedAppend(t, Move(i, 68), [ESC, 91, 75], w, h);
  }

  lemma FreshShown(t: Term, prompt: seq<nat>, s': Text, w: nat, h: nat)
    requires Displays(t, prompt, [], 0, w, h) && IsText(s') && |prompt| + |s'| < w
    ensures Displays(FeedAll(t, s', w, h), prompt, s', |s'|, w, h)
  {
    var none: Text := [];
    assert none[..0] + s' == s';
    InsertRow(prompt, none, 0, s', s', w);
    OpenDisplay(t, prompt, none, 0, w, h);
    TypeShown(t, prompt, none, 0, s', s', w, h);
    CloseDisplay(FeedAll(t, s', w, h), prompt, s', |s'|, w, h);
  }

  lemma ReplaceShown(t: Term, prompt: seq<nat>, e: Edit, s': Text, w: nat, h: nat)
    requires Displays(t, prompt, e.s, e.i, w, h) && IsText(s') && |prompt| + |s'| < w
    ensures Displays(FeedAll(t, Replace(e, s'), w, h), prompt, s', |s'|, w, h)
  {
    if e.s == [] {
      assert [] + s' == s';
      FreshShown(t, prompt, s', w, h);
    } else {
      ClearShown(t, prompt, e.s, e.i, w, h);
      FreshShown(FeedAll(t, Move(e.i, 68) + [ESC, 91, 75], w, h), prompt, s', w, h);
      FeedAppend(t, Move(e.i, 68) + [ESC, 91, 75], s', w, h);
    }
  }

  /** After every key the terminal shows the prompt, the text and blanks, with the cursor at the
      edit position, provided that the text fits. */
  lemma KeyShown(t: Term, prompt: seq<nat>, e: Edit, history: seq<Text>, k: Key, w: nat, h: nat)
    requires EditOk(e, history) && KeyOk(k) && !k.Enter? && Displays(t, prompt, e.s, e.i, w, h)
    requires |prompt| + |Next(e, history, k).s| < w
    ensures var f := Next(e, history, k);
            Displays(FeedAll(t, Output(e, history, k), w, h), prompt, f.s, f.i, w, h)
  {
    if k.Up? || k.Down? {
      HistoryKeyShown(t, prompt, e, history, k, w, h);
    } else if k.Delete? {
      DeleteKeyShown(t, prompt, e, history, w, h);
    } else if k.Insert? {
      InsertKeyShown(t, prompt, e, history, k.c, w, h);
    } else {
      MoveKeyShown(t, prompt, e, history, k, w, h);
    }
  }

  lemma MoveKeyShown(t: Term, prompt: seq<nat>, e: Edit, history: seq<Text>, k: Key, w: nat, h: nat)
    requires EditOk(e, history) && (k.Left? || k.Right? || k.Ignored?) && Displays(t, prompt, e.s, e.i, w, h)
    ensures var f := Next(e, history, k);
            Displays(FeedAll(t, Output(e, history, k), w, h), prompt, f.s, f.i, w, h)
  {
    if k.Right? && e.i < |e.s| {
      RightShown(t, prompt, e.s, e.i, w, h);
    } else if k.Left? && e.i > 0 {
      LeftShown(t, prompt, e.s, e.i, w, h);
    }
  }

  lemma HistoryKeyShown(t: Term, prompt: seq<nat>, e: Edit, history: seq<Text>, k: Key, w: nat, h: nat)
    requires EditOk(e, history) && (k.Up? || k.Down?) && Displays(t, prompt, e.s, e.i, w, h)
    requires |prompt| + |Next(e, history, k).s| < w
    ensures var f := Next(e, history, k);
            Displays(FeedAll(t, Output(e, history, k), w, h), prompt, f.s, f.i, w, h)
  {
    NextKeeps(e, history, k);
    if Next(e, history, k) != e {
      ReplaceShown(t, prompt, e, Next(e, history, k).s, w, h);
    }
  }

  lemma InsertKeyShown(t: Term, prompt: seq<nat>, e: Edit, history: seq<Text>, c: Byte, w: nat, h: nat)
    requires EditOk(e, history) && Printable(c) && Displays(t, prompt, e.s, e.i, w, h) && |prompt| + |e.s| + 1 < w
    ensures var f := Next(e, history, Insert(c));
            Displays(FeedAll(t, Output(e, history, Insert(c)), w, h), prompt, f.s, f.i, w, h)
  {
    InsertShown(t, prompt, e.s, e.i, c, w, h);
  }

  lemma DeleteKeyShown(t: Term, prompt: seq<nat>, e: Edit, history: seq<Text>, w: nat, h: nat)
    requires EditOk(e, history) && Displays(t, prompt, e.s, e.i, w, h)
    ensures var f := Next(e, history, Delete);
            Displays(FeedAll(t, Output(e, history, Delete), w, h), prompt, f.s, f.i, w, h)
  {
    if e.i > 0 {
      DeleteShown(t, prompt, e.s, e.i, w, h);
    }
  }

  /** Enter takes the cursor behind the text, which stays as it is, and to the next row. */
  lemma EnterShown(t: Term, prompt: seq<nat>, e: Edit, history: seq<Text>, w: nat, h: nat)
    requires EditOk(e, history) && Displays(t, prompt, e.s, e.i, w, h)
    ensures FeedAll(t, Output(e, history, Enter), w, h) == Term(Nothing, NewLine(t.screen.(cx := |prompt| + |e.s|), w))
  {
    OpenDisplay(t, prompt, e.s, e.i, w, h);
    EnterOutput(e, history);
    Leaves(t, |e.s| - e.i, Output(e, history, Enter), |prompt| + |e.s|, w, h);
  }

  lemma EnterOutput(e: Edit, history: seq<Text>)
    requires EditOk(e, history)
    ensures Output(e, history, Enter) == if e.i == |e.s| then [10] else Move(|e.s| - e.i, 67) + [10]
  {
  }

  lemma Leaves(t: Term, n: nat, bytes: seq<Byte>, x: nat, w: nat, h: nat)
    requires WellFormed(t.screen, w, h) && t.pending == Nothing && n <= U32_MAX && t.screen.cx + n == x < w
    requires bytes == if n == 0 then [10] else Move(n, 67) + [10]
    ensures FeedAll(t, bytes, w, h) == Term(Nothing, NewLine(t.screen.(cx := x), w))
  {
    if n == 0 {
      NewLineByte(t, w, h);
      assert t.screen.(cx := x) == t.screen;
    } else {
      ForwardAndDown(t, n, w, h);
    }
  }

  lemma ForwardAndDown(t: Term, n: nat, w: nat, h: nat)
    requires WellFormed(t.screen, w, h) && t.pending == Nothing && n <= U32_MAX && t.screen.cx + n < w
    ensures FeedAll(t, Move(n, 67) + [10], w, h) == Term(Nothing, NewLine(t.screen.(cx := t.screen.cx + n), w))
  {
    MoveRight(t, n, w, h);
    FeedAppend(t, Move(n, 67), [10], w, h);
    NewLineByte(Term(Nothing, t.screen.(cx := t.screen.cx + n)), w, h);
  }

  lemma NewLineByte(t: Term, w: nat, h: nat)
    requires WellFormed(t.screen, w, h) && t.pending == Nothing
    ensures FeedAll(t, [10], w, h) == Term(Nothing, NewLine(t.screen, w))
  {
    FeedOne(t, 10, w, h);
  }

  // ---- whole lines ----

  /** The edit after the first `n` keys, none of which is enter. */
  ghost function EditAfter(history: seq<Text>, keys: seq<Key>, n: nat): (e: Edit)
    requires |history| <= HISTORY_SIZE && AllText(history) && n <= |keys| && (forall k :: k in keys ==> KeyOk(k))
    ensures EditOk(e, history)
  {
    if n == 0 then Edit([], 0, |history|, seq(HISTORY_SIZE + 1, p => None))
    else
      var e := EditAfter(history, keys, n - 1);
      assert keys[n - 1] in keys;
      NextKeeps(e, history, keys[n - 1]);
      Next(e, history, keys[n - 1])
  }

  function Typing(text: Text): (keys: seq<Key>)
    requires IsText(text)
    ensures forall k :: k in keys ==> KeyOk(k)
  {
    seq(|text|, j requires 0 <= j < |text| => Insert(text[j]))
  }

  /** Text that is typed on a new line is the line. */
  lemma {:induction false} TypedIsLine(history: seq<Text>, text: Text, n: nat)
    requires |history| <= HISTORY_SIZE && AllText(history) && IsText(text) && n <= |text|
    ensures EditAfter(history, Typing(text), n).s == text[..n] && EditAfter(history, Typing(text), n).i == n
  {
    if n > 0 {
      TypedIsLine(history, text, n - 1);
      assert text[..n] == text[..n - 1] + [text[n - 1]];
    }
  }

  /** How many keys come before the first enter. */
  function BeforeEnter(keys: seq<Key>): (n: nat)
    ensures n <= |keys|
  {
    if keys == [] || keys[0] == Enter then 0 else 1 + BeforeEnter(keys[1..])
  }

  lemma {:induction false} TypedKeys(text: Text, rest: seq<nat>)
    requires IsText(text)
    ensures Keys(text + rest) == Typing(text) + Keys(rest)
    decreases |text|
  {
    if text == [] {
      assert text + rest == rest && Typing(text) == [];
    } else {
      var more := text[1..];
      assert forall c :: c in more ==> c in text;
      TypedKeys(more, rest);
      assert text[0] in text && text + rest == [text[0]] + (more + rest);
      KeyTyped(more + rest, text[0]);
      assert Typing(text) == [Insert(text[0])] + Typing(more);
      KeysRegroup([Insert(text[0])], Typing(more), Keys(rest));
    }
  }

  lemma KeyTyped(rest: seq<nat>, c: Byte)
    requires Printable(c)
    ensures Keys([c] + rest) == [Insert(c)] + Keys(rest)
  {
    KeyBytes(rest, c);
  }

  lemma KeysRegroup(a: seq<Key>, b: seq<Key>, c: seq<Key>)
    ensures a + (b + c) == (a + b) + c
  {
  }

  lemma {:induction false} SameBefore(history: seq<Text>, keys: seq<Key>, keys': seq<Key>, n: nat)
    requires |history| <= HISTORY_SIZE && AllText(history) && n <= |keys| && n <= |keys'| && keys[..n] == keys'[..n]
    requires (forall k :: k in keys ==> KeyOk(k)) && (forall k :: k in keys' ==> KeyOk(k))
    ensures EditAfter(history, keys, n) == EditAfter(history, keys', n)
  {
    if n > 0 {
      assert keys[n - 1] == keys[..n][n - 1] == keys'[n - 1];
      assert keys[..n - 1] == keys[..n][..n - 1] == keys'[..n - 1];
      SameBefore(history, keys, keys', n - 1);
    }
  }

  lemma {:induction false} EnterAfter(keys: seq<Key>, rest: seq<Key>)
    requires Enter !in keys
    ensures BeforeEnter(keys + [Enter] + rest) == |keys|
  {
    var all := keys + [Enter] + rest;
    if keys != [] {
      assert keys[0] in keys && all[1..] == keys[1..] + [Enter] + rest;
      EnterAfter(keys[1..], rest);
    }
  }

  lemma TypedLineKeys(text: Text, rest: seq<nat>)
    requires IsText(text)
    ensures Keys(text + [10] + rest) == Typing(text) + [Enter] + Keys(rest)
  {
    assert text + [10] + rest == text + ([10] + rest);
    TypedKeys(text, [10] + rest);
    KeyEnter(rest);
    KeysRegroup(Typing(text), [Enter], Keys(rest));
  }

  lemma KeyEnter(rest: seq<nat>)
    ensures Keys([10] + rest) == [Enter] + Keys(rest)
  {
    KeyBytes(rest, 10);
  }

  lemma TypedFirst(history: seq<Text>, text: Text, typed: seq<Key>, keys: seq<Key>)
    requires |history| <= HISTORY_SIZE && AllText(history) && IsText(text) && typed == Typing(text)
    requires |text| <= |keys| && keys[..|text|] == typed && (forall k :: k in keys ==> KeyOk(k))
    ensures EditAfter(history, keys, |text|).s == text
  {
    assert typed[..|text|] == typed && text[..|text|] == text;
    SameBefore(history, keys, typed, |text|);
    TypedIsLine(history, text, |text|);
  }

  lemma TypedThenEnter(history: seq<Text>, text: Text, typed: seq<Key>, rest: seq<Key>, keys: seq<Key>)
    requires |history| <= HISTORY_SIZE && AllText(history) && IsText(text) && typed == Typing(text) && keys == typed + [Enter] + rest
    requires forall k :: k in keys ==> KeyOk(k)
    ensures BeforeEnter(keys) == |text| < |keys| && EditAfter(history, keys, |text|).s == text
  {
    EnterAfter(typed, rest);
    assert keys[..|text|] == typed;
    TypedFirst(history, text, typed, keys);
  }

  /** What is read when text is typed and enter follows: the first enter ends the line, and the line
      is that text, whatever is in the history. */
  lemma TypedIsRead(history: seq<Text>, text: Text, rest: seq<nat>)
    requires |history| <= HISTORY_SIZE && AllText(history) && IsText(text)
    ensures var keys := Keys(text + [10] + rest);
            BeforeEnter(keys) == |text| < |keys| && EditAfter(history, keys, |text|).s == text
  {
    TypedLineKeys(text, rest);
    TypedThenEnter(history, text, Typing(text), Keys(rest), Keys(text + [10] + rest));
  }

  /** The line stays on one row up to the first enter, or to the end of the input. */
  ghost predicate Fits(prompt: seq<nat>, history: seq<Text>, keys: seq<Key>, w: nat)
    requires |history| <= HISTORY_SIZE && AllText(history) && (forall k :: k in keys ==> KeyOk(k))
  {
    forall n :: 0 <= n <= BeforeEnter(keys) ==> |prompt| + |EditAfter(history, keys, n).s| < w
  }

  /** The history with a new line, the oldest dropped when it is full. */
  function Remember(history: seq<Text>, s: Text): seq<Text> {
    (if |history| >= HISTORY_SIZE then history[1..] else history) + [s]
  }

  datatype Result = Ok(line: Text) | Err(line: Text)

  class LineEditor {
    const term: Terminal
    var history: seq<Text>
    var s: Text
    var i: nat
    var pos: nat
    var saved: seq<Option<Text>>

    constructor (t: Terminal)
      ensures term == t && history == []
    {
      term, history := t, [];
      s, i, pos, saved := [], 0, 0, [];
    }

    ghost function State(): Edit
      reads this
    {
      Edit(s, i, pos, saved)
    }

    /** The screen is in step with the edit. */
    ghost predicate InStep(prompt: seq<nat>)
      reads this, term, term.buf, term.parser
    {
      term.Valid() && EditOk(State(), history) && Displays(term.State(), prompt, s, i, term.w, term.h)
    }

    /** Handles one key that does not end the line. */
    method HandleKey(k: Key, ghost prompt: seq<nat>)
      requires InStep(prompt) && KeyOk(k) && !k.Enter? && |prompt| + |Next(State(), history, k).s| < term.w
      modifies this, term, term.buf, term.parser
      ensures InStep(prompt) && history == old(history) && State() == Next(old(State()), history, k)
    {
      NextKeeps(State(), history, k);
      KeyShown(term.State(), prompt, State(), history, k, term.w, term.h);
      var out := Output(Edit(s, i, pos, saved), history, k);
      ChangeEdit(k);
      term.Write(out);
    }

    /** Changes the edit as a key asks for. */
    method ChangeEdit(k: Key)
      requires EditOk(State(), history) && KeyOk(k) && !k.Enter?
      modifies this`s, this`i, this`pos, this`saved
      ensures State() == Next(old(State()), history, k)
    {
      match k {
        case Ignored =>
        case Delete =>
          if i != 0 {
            s := s[..i - 1] + s[i..];
            i := i - 1;
          }
        case Up =>
          if pos != 0 {
            TakeUp(pos - 1);
          }
        case Down =>
          if pos != |history| {
            TakeUp(pos + 1);
          }
        case Right =>
          if i != |s| {
            i := i + 1;
          }
        case Left =>
          if i != 0 {
            i := i - 1;
          }
        case Insert(c) =>
          s := s[..i] + [c] + s[i..];
          i := i + 1;
      }
    }

    /** Takes up another position in the history; what is looked for there always exists. */
    method TakeUp(p: nat)
      requires EditOk(State(), history) && p <= |history| && (p == pos + 1 || p + 1 == pos)
      modifies this`s, this`i, this`pos, this`saved
      ensures (old(saved)[p].Some? || p < |history|) && State() == GoTo(old(State()), history, p)
    {
      GoToKeeps(State(), history, p);
      saved := saved[pos := Some(s)];
      pos := p;
      if saved[pos].Some? {
        s := saved[pos].value;
        saved := saved[pos := None];
      } else {
        s := history[pos];
        assert saved == saved[pos := None];
      }
      i := |s|;
    }

    /** Reads a line. Up to enter the screen is in step with the edit after every key, last as
        `shown`; at enter the line is remembered and the cursor leaves it for the next row. */
    method Readline(input: seq<nat>, ghost prompt: seq<nat>) returns (r: Result, ghost shown: Term)
      requires term.Valid() && |history| <= HISTORY_SIZE && AllText(history)
      requires Displays(term.State(), prompt, [], 0, term.w, term.h)
      requires Fits(prompt, history, Keys(input), term.w)
      modifies this, term, term.buf, term.parser
      ensures term.Valid() && AllText(history) && |history| <= HISTORY_SIZE
      ensures var keys := Keys(input); var n := BeforeEnter(keys);
              && n <= |keys|
              && r == (if n < |keys| then Ok(EditAfter(old(history), keys, n).s) else Err(EditAfter(old(history), keys, n).s))
              && history == (if n < |keys| then Remember(old(history), r.line) else old(history))
              && Displays(shown, prompt, r.line, EditAfter(old(history), keys, n).i, term.w, term.h)
      ensures term.State() == if r.Ok? then Term(Nothing, NewLine(shown.screen.(cx := |prompt| + |r.line|), term.w)) else shown
    {
      var keys := Keys(input);
      s, i, pos, saved := [], 0, |history|, seq(HISTORY_SIZE + 1, p => None);
      var n := EditLine(keys, prompt);
      shown := term.State();
      if n == |keys| {
        r := Err(s);
      } else {
        r := Ok(s);
        Finish(prompt);
      }
    }

    /** Leaves the line and remembers it. */
    method Finish(ghost prompt: seq<nat>)
      requires InStep(prompt)
      modifies this`history, term, term.buf, term.parser
      ensures term.Valid()
      ensures term.State() == Term(Nothing, NewLine(old(term.Screen()).(cx := |prompt| + |s|), term.w))
      ensures history == Remember(old(history), s) && AllText(history) && |history| <= HISTORY_SIZE
    {
      EnterShown(term.State(), prompt, State(), history, term.w, term.h);
      term.Write(Output(Edit(s, i, pos, saved), history, Enter));
      history := (if |history| >= HISTORY_SIZE then history[1..] else history) + [s];
    }

    /** Handles the keys up to the first enter. */
    method EditLine(keys: seq<Key>, ghost prompt: seq<nat>) returns (n: nat)
      requires |history| <= HISTORY_SIZE && AllText(history) && (forall k :: k in keys ==> KeyOk(k))
      requires Fits(prompt, history, keys, term.w) && InStep(prompt) && State() == EditAfter(history, keys, 0)
      modifies this, term, term.buf, term.parser
      ensures n == BeforeEnter(keys) && n <= |keys| && (n < |keys| ==> keys[n] == Enter)
      ensures InStep(prompt) && history == old(history) && State() == EditAfter(history, keys, n)
    {
      n := 0;
      assert keys[0..] == keys;
      while n < |keys| && keys[n] != Enter
        invariant n <= |keys| && history == old(history) && n + BeforeEnter(keys[n..]) == BeforeEnter(keys)
        invariant InStep(prompt) && State() == EditAfter(history, keys, n)
      {
        BeforeEnterRest(keys, n);
        OneMore(keys, n);
        HandleKey(keys[n], prompt);
        n := n + 1;
      }
      BeforeEnterRest(keys, n);
    }

    lemma OneMore(keys: seq<Key>, n: nat)
      requires |history| <= HISTORY_SIZE && AllText(history) && (forall k :: k in keys ==> KeyOk(k)) && n < |keys|
      ensures KeyOk(keys[n]) && EditAfter(history, keys, n + 1) == Next(EditAfter(history, keys, n), history, keys[n])
    {
      assert keys[n] in keys;
    }
  }

  lemma BeforeEnterRest(keys: seq<Key>, n: nat)
    requires n <= |keys|
    ensures n == |keys| || keys[n] == Enter ==> BeforeEnter(keys[n..]) == 0
    ensures n < |keys| && keys[n] != Enter ==> BeforeEnter(keys[n..]) == 1 + BeforeEnter(keys[n + 1..])
  {
    if n < |keys| {
      assert keys[n..][1..] == keys[n + 1..];
    }
  }
}
