/** The parser of the terminal's input: UTF-8 characters and the control sequences of section 5.4
    of ECMA-48 that the terminal knows.
 */
module Ansi {
  import opened Basics

  type Byte = b: int | 0 <= b < 256

  datatype Color =
    | Black | Red | Green | Brown | Blue | Magenta | Cyan | LightGray
    | DarkGray | LightRed | LightGreen | Yellow | LightBlue | Pink | LightCyan | White

  datatype SgrAction = Reset | SetFg(color: Color) | SetBg(color: Color)

  datatype Action =
    | WriteChar(ch: nat)
    | CursorUp(n: nat)
    | CursorDown(n: nat)
    | CursorRight(n: nat)
    | CursorLeft(n: nat)
    | EraseToLineEnd
    | Sgr(actions: seq<SgrAction>)

  const U32_MAX: nat := 0xFFFF_FFFF
  const MAX_CSI_LENGTH: nat := 64
  const MAX_SGR_CMDS: nat := 8
  const REPLACEMENT: nat := 0xFFFD

  // ---- colours ----

  function CodeOffset(c: Color): nat {
    match c
    case Black => 0 case Red => 1 case Green => 2 case Brown => 3
    case Blue => 4 case Magenta => 5 case Cyan => 6 case LightGray => 7
    case DarkGray => 60 case LightRed => 61 case LightGreen => 62 case Yellow => 63
    case LightBlue => 64 case Pink => 65 case LightCyan => 66 case White => 67
  }

  function FromCodeOffset(n: nat): Option<Color> {
    if n == 0 then Some(Black) else if n == 1 then Some(Red) else if n == 2 then Some(Green) else if n == 3 then Some(Brown)
    else if n == 4 then Some(Blue) else if n == 5 then Some(Magenta) else if n == 6 then Some(Cyan) else if n == 7 then Some(LightGray)
    else if n == 60 then Some(DarkGray) else if n == 61 then Some(LightRed) else if n == 62 then Some(LightGreen) else if n == 63 then Some(Yellow)
    else if n == 64 then Some(LightBlue) else if n == 65 then Some(Pink) else if n == 66 then Some(LightCyan) else if n == 67 then Some(White)
    else None
  }

  /** A command of the sequence that selects colours; others are skipped. */
  function ToAction(cmd: nat): Option<SgrAction> {
    if cmd == 0 then Some(Reset)
    else if 30 <= cmd <= 37 || 90 <= cmd <= 97 then
      (match FromCodeOffset(cmd - 30) case Some(c) => Some(SetFg(c)) case None => None)
    else if 40 <= cmd <= 47 || 100 <= cmd <= 107 then
      (match FromCodeOffset(cmd - 40) case Some(c) => Some(SetBg(c)) case None => None)
    else None
  }

  /** The number by which an action is written. */
  function Code(a: SgrAction): nat {
    match a
    case Reset => 0
    case SetFg(c) => 30 + CodeOffset(c)
    case SetBg(c) => 40 + CodeOffset(c)
  }

  lemma CodeRoundTrip(a: SgrAction)
    ensures ToAction(Code(a)) == Some(a)
  {
  }

  // ---- numbers ----

  predicate IsDigit(b: Byte) {
    48 <= b <= 57
  }

  /** The number that digits stand for. */
  function Value(digits: seq<Byte>): nat
    requires forall b :: b in digits ==> IsDigit(b)
  {
    if digits == [] then 0
    else
      var last: int := digits[|digits| - 1];
      assert IsDigit(digits[|digits| - 1]);
      Value(digits[..|digits| - 1]) * 10 + (last - 48)
  }

  /** A decimal number of 32 bits, with an optional plus sign in front. */
  function ParseNumber(s: seq<Byte>): Option<nat> {
    var digits := if s != [] && s[0] == 43 then s[1..] else s;
    if digits == [] || exists b :: b in digits && !IsDigit(b) then None
    else if Value(digits) > U32_MAX then None
    else Some(Value(digits))
  }

  function ParseNumberOr(default: nat, s: seq<Byte>): Option<nat> {
    if s == [] then Some(default) else ParseNumber(s)
  }

  /** How a number is written. */
  function Digits(n: nat): (d: seq<Byte>)
    ensures d != [] && forall b :: b in d ==> IsDigit(b)
  {
    if n < 10 then [48 + n] else Digits(n / 10) + [48 + n % 10]
  }

  lemma {:induction false} ValueOfDigits(n: nat)
    ensures Value(Digits(n)) == n
  {
    if n >= 10 {
      ValueOfDigits(n / 10);
      var d := Digits(n / 10);
      assert (d + [48 + n % 10])[..|d|] == d;
    }
  }

  /** A number of 32 bits that was written is read back. */
  lemma NumberRoundTrip(n: nat)
    requires n <= U32_MAX
    ensures ParseNumber(Digits(n)) == Some(n)
  {
    ValueOfDigits(n);
    assert Digits(n)[0] in Digits(n);
  }

  // ---- UTF-8 ----

  predicate Continues(b: Byte) {
    0x80 <= b <= 0xBF
  }

  /** The character that two, three or four bytes encode, or the replacement character. */
  function DecodeUtf8(s: seq<Byte>): nat {
    if |s| == 2 && 0xC2 <= s[0] <= 0xDF && Continues(s[1]) then
      (s[0] - 0xC0) * 64 + (s[1] - 0x80)
    else if |s| == 3 && 0xE0 <= s[0] <= 0xEF && Continues(s[1]) && Continues(s[2])
            && !(s[0] == 0xE0 && s[1] < 0xA0) && !(s[0] == 0xED && s[1] > 0x9F) then
      (s[0] - 0xE0) * 4096 + (s[1] - 0x80) * 64 + (s[2] - 0x80)
    else if |s| == 4 && 0xF0 <= s[0] <= 0xF4 && Continues(s[1]) && Continues(s[2]) && Continues(s[3])
            && !(s[0] == 0xF0 && s[1] < 0x90) && !(s[0] == 0xF4 && s[1] > 0x8F) then
      (s[0] - 0xF0) * 262144 + (s[1] - 0x80) * 4096 + (s[2] - 0x80) * 64 + (s[3] - 0x80)
    else REPLACEMENT
  }

  // ---- colour sequences ----

  function Saturated(n: nat): nat {
    if n > U32_MAX then U32_MAX else n
  }

  /** The commands of a sequence: numbers between semicolons, other bytes ignored. */
  function Commands(s: seq<Byte>, current: nat): seq<nat> {
    if s == [] then [current]
    else if s[0] == 59 then [current] + Commands(s[1..], 0)
    else if IsDigit(s[0]) then Commands(s[1..], Saturated(Saturated(current * 10) + (s[0] - 48)))
    else Commands(s[1..], current)
  }

  function FirstEight(cmds: seq<nat>): seq<nat> {
    if |cmds| > MAX_SGR_CMDS then cmds[..MAX_SGR_CMDS] else cmds
  }

  function Actions(cmds: seq<nat>): seq<SgrAction> {
    if cmds == [] then []
    else
      var last := ToAction(cmds[|cmds| - 1]);
      Actions(cmds[..|cmds| - 1]) + if last.Some? then [last.value] else []
  }

  /** Reads the commands; those past the eighth are dropped. */
  method ReadCommands(s: seq<Byte>) returns (cmds: seq<nat>)
    ensures cmds == FirstEight(Commands(s, 0))
  {
    cmds := [];
    var current: nat := 0;
    for k := 0 to |s|
      invariant |cmds| <= MAX_SGR_CMDS
      invariant |cmds| < MAX_SGR_CMDS ==> Commands(s, 0) == cmds + Commands(s[k..], current)
      invariant |cmds| == MAX_SGR_CMDS ==> cmds <= Commands(s, 0) && |Commands(s, 0)| > MAX_SGR_CMDS
    {
      assert s[k..][0] == s[k] && s[k..][1..] == s[k + 1..];
      if s[k] == 59 {
        if |cmds| < MAX_SGR_CMDS {
          CommandsSome(s[k + 1..], 0);
          assert cmds + ([current] + Commands(s[k + 1..], 0)) == (cmds + [current]) + Commands(s[k + 1..], 0);
          cmds := cmds + [current];
        }
        current := 0;
      } else if IsDigit(s[k]) {
        current := Saturated(Saturated(current * 10) + (s[k] - 48));
      }
    }
    assert s[|s|..] == [];
    if |cmds| < MAX_SGR_CMDS {
      cmds := cmds + [current];
    }
  }

  method ParseSgr(s: seq<Byte>) returns (actions: seq<SgrAction>)
    ensures actions == Actions(FirstEight(Commands(s, 0))) && |actions| <= MAX_SGR_CMDS
  {
    var cmds := ReadCommands(s);
    actions := [];
    for k := 0 to |cmds|
      invariant actions == Actions(cmds[..k]) && |actions| <= k
    {
      assert cmds[..k + 1][..k] == cmds[..k];
      var action := ToAction(cmds[k]);
      if action.Some? {
        actions := actions + [action.value];
      }
    }
    assert cmds[..|cmds|] == cmds;
  }

  lemma {:induction false} CommandsSome(s: seq<Byte>, current: nat)
    ensures Commands(s, current) != []
    decreases |s|
  {
    if s != [] && s[0] != 59 {
      CommandsSome(s[1..], if IsDigit(s[0]) then Saturated(Saturated(current * 10) + (s[0] - 48)) else current);
    }
  }

  lemma {:induction false} CommandsAppend(d: seq<Byte>, current: nat, v: nat, x: Byte)
    requires (forall b :: b in d ==> IsDigit(b)) && IsDigit(x) && Commands(d, current) == [v]
    ensures Commands(d + [x], current) == [Saturated(Saturated(v * 10) + (x - 48))]
    decreases |d|
  {
    var dx := d + [x];
    if d == [] {
      assert dx[1..] == [];
    } else {
      assert dx[0] == d[0] && dx[1..] == d[1..] + [x] && IsDigit(d[0]);
      CommandsAppend(d[1..], Saturated(Saturated(current * 10) + (d[0] - 48)), v, x);
    }
  }

  lemma {:induction false} CommandsOfDigits(n: nat)
    requires n <= U32_MAX
    ensures Commands(Digits(n), 0) == [n]
  {
    if n < 10 {
      assert Digits(n)[1..] == [];
    } else {
      CommandsOfDigits(n / 10);
      CommandsAppend(Digits(n / 10), 0, n / 10, 48 + n % 10);
    }
  }

  /** A colour action that was written as a control sequence is read back. */
  lemma SgrRoundTrip(a: SgrAction)
    ensures FinalAction(Digits(Code(a)), 109) == Some(Sgr([a]))
  {
    CommandsOfDigits(Code(a));
    CodeRoundTrip(a);
    var cmds := [Code(a)];
    assert cmds[..0] == [];
    assert Actions(cmds) == [] + [a] == [a];
    assert FirstEight(cmds) == cmds;
  }

  // ---- the parser ----

  /** What the parser remembers: the bytes of an unfinished character or control sequence. */
  datatype Pending =
    | Nothing
    | Utf8(bytes: seq<Byte>, len: nat)
    | Escape
    | Csi(params: seq<Byte>)

  /** Final bytes of a control sequence. The standard has one more, 0x7E. */
  predicate IsFinal(b: Byte) {
    0x40 <= b < 0x7E
  }

  function FinalAction(params: seq<Byte>, b: Byte): Option<Action> {
    if b == 109 then Some(Sgr(Actions(FirstEight(Commands(params, 0)))))
    else if b == 65 then (match ParseNumberOr(1, params) case Some(n) => Some(CursorUp(n)) case None => None)
    else if b == 66 then (match ParseNumberOr(1, params) case Some(n) => Some(CursorDown(n)) case None => None)
    else if b == 67 then (match ParseNumberOr(1, params) case Some(n) => Some(CursorRight(n)) case None => None)
    else if b == 68 then (match ParseNumberOr(1, params) case Some(n) => Some(CursorLeft(n)) case None => None)
    else if b == 75 && ParseNumberOr(0, params) == Some(0) then Some(EraseToLineEnd)
    else None
  }

  /** One byte of the stream: what is pending after it, and what the terminal is to do. A sequence
      that is too long is dropped up to its final byte. */
  function Step(p: Pending, b: Byte): (Pending, Option<Action>) {
    match p
    case Nothing =>
      if b == 0x1B then (Escape, None)
      else if b >= 0xC0 then (Utf8([b], if b < 0xE0 then 2 else if b < 0xF0 then 3 else 4), None)
      else (Nothing, Some(WriteChar(b)))
    case Utf8(bytes, len) =>
      if |bytes| + 1 == len then (Nothing, Some(WriteChar(DecodeUtf8(bytes + [b]))))
      else (Utf8(bytes + [b], len), None)
    case Escape =>
      (if b == 91 then Csi([]) else Nothing, None)
    case Csi(params) =>
      if |params| >= MAX_CSI_LENGTH then (if IsFinal(b) then Nothing else Csi(params), None)
      else if IsFinal(b) then (Nothing, FinalAction(params, b))
      else (Csi(params + [b]), None)
  }

  datatype ParserState = NormalState | PartialUtf8(i: nat, len: nat) | EscapeState | PartialCsi(i: nat)

  /** The parser with its one buffer for unfinished input. */
  class Parser {
    var state: ParserState
    var buf: seq<Byte>

    ghost predicate Valid()
      reads this
    {
      && |buf| == MAX_CSI_LENGTH
      && (state.PartialUtf8? ==> 0 < state.i < state.len <= 4)
      && (state.PartialCsi? ==> state.i <= MAX_CSI_LENGTH)
    }

    ghost function Pending(): Pending
      requires Valid()
      reads this
    {
      match state
      case NormalState => Nothing
      case PartialUtf8(i, len) => Utf8(buf[..i], len)
      case EscapeState => Escape
      case PartialCsi(i) => Csi(buf[..i])
    }

    constructor ()
      ensures Valid() && Pending() == Nothing
    {
      state, buf := NormalState, seq(MAX_CSI_LENGTH, i => 0);
    }

    method Write(b: Byte) returns (r: Option<Action>)
      requires Valid()
      modifies this
      ensures Valid() && (Pending(), r) == Step(old(Pending()), b)
    {
      r := None;
      match state
      case NormalState =>
        if b == 0x1B {
          state := EscapeState;
        } else if b >= 0xC0 {
          buf := buf[0 := b];
          state := PartialUtf8(1, if b < 0xE0 then 2 else if b < 0xF0 then 3 else 4);
          assert buf[..1] == [b];
        } else {
          r := Some(WriteChar(b));
        }
      case PartialUtf8(i, len) =>
        buf := buf[i := b];
        assert buf[..i + 1] == old(buf[..i]) + [b];
        if i + 1 == len {
          state := NormalState;
          r := Some(WriteChar(DecodeUtf8(buf[..len])));
        } else {
          state := PartialUtf8(i + 1, len);
        }
      case EscapeState =>
        if b == 91 {
          state := PartialCsi(0);
          assert buf[..0] == [];
        } else {
          state := NormalState;
        }
      case PartialCsi(i) =>
        if i == MAX_CSI_LENGTH {
          if IsFinal(b) {
            state := NormalState;
          }
        } else {
          r := CsiByte(i, b);
        }
    }

    method CsiByte(i: nat, b: Byte) returns (r: Option<Action>)
      requires Valid() && state == PartialCsi(i) && i < MAX_CSI_LENGTH
      modifies this
      ensures Valid() && (Pending(), r) == Step(old(Pending()), b)
    {
      r := None;
      buf := buf[i := b];
      assert buf[..i + 1] == old(buf[..i]) + [b];
      assert buf[..i] == old(buf[..i]);
      if b == 109 {
        state := NormalState;
        var actions := ParseSgr(buf[..i]);
        r := Some(Sgr(actions));
      } else if IsFinal(b) {
        state := NormalState;
        r := FinalAction(buf[..i], b);
      } else {
        state := PartialCsi(i + 1);
      }
    }
  }
}
