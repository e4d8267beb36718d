/**
 keyboard.c: scancodes go through one ring buffer, their characters through a second one.
 */
module Keyboard {

  type byte = b: nat | b < 256

  const KBD_BUFFER_SIZE: nat := 1000
  const UNUSED: byte := 0xFF

  const LSHIFT: byte := 0x2A
  const RSHIFT: byte := 0x36
  const CAPS: byte := 0x3A
  const LSHIFT_RELEASE: byte := 0xAA
  const RSHIFT_RELEASE: byte := 0xB6
  const SPACE: byte := 0x39

  // ----- translation ------------------------------------------------------------------

  /** Unshifted and shifted characters of the digit keys, from scancode 0x02 on. */
  const DIGITS: string := "1234567890"
  const SYMBOLS: string := "!@#$%^&*()"

  /** The letter keys: three runs of scancodes, from 0x10, 0x1E and 0x2C on. */
  const TOP_ROW: string := "qwertyuiop"
  const HOME_ROW: string := "asdfghjkl"
  const BOTTOM_ROW: string := "zxcvbnm"

  datatype Modifiers = Modifiers(shift: bool, caps: bool)

  function Upper(c: char): char {
    if 'a' <= c <= 'z' then (c as int - 32) as char else c
  }

  function Cased(c: char, m: Modifiers): byte
    requires c < 128 as char
  {
    (if m.shift || m.caps then Upper(c) else c) as int
  }

  /** keyboard_convert_scancode_to_ascii: the character of a scancode, and its modifiers. */
  function Convert(code: byte, m: Modifiers): (Modifiers, byte) {
    if code == LSHIFT || code == RSHIFT then (m.(shift := true), UNUSED)
    else if code == CAPS then (Modifiers(false, !m.caps), UNUSED)
    else if code == LSHIFT_RELEASE || code == RSHIFT_RELEASE then (m.(shift := false), UNUSED)
    else if 0x02 <= code <= 0x0B then (m, (if m.shift then SYMBOLS[code - 2] else DIGITS[code - 2]) as int)
    else if 0x10 <= code <= 0x19 then (m, Cased(TOP_ROW[code - 0x10], m))
    else if 0x1E <= code <= 0x26 then (m, Cased(HOME_ROW[code - 0x1E], m))
    else if 0x2C <= code <= 0x32 then (m, Cased(BOTTOM_ROW[code - 0x2C], m))
    else if code == SPACE then (m, ' ' as int)
    else (m, UNUSED)
  }

  /** Which key a character comes from. */
  function KeyOf(ch: byte): byte {
    if ch == ' ' as int then SPACE
    else if ch == '0' as int || ch == ')' as int then 0x0B
    else if '1' as int <= ch <= '9' as int then ch - '1' as int + 2
    else
      var c := (if 'A' as int <= ch <= 'Z' as int then ch + 32 else ch) as char;
      if c in SYMBOLS then 2 + IndexIn(SYMBOLS, c) else LetterKey(c)
  }

  function IndexIn(s: string, c: char): (i: nat)
    requires c in s && |s| <= 10
    ensures i < |s| && s[i] == c
  {
    if s[0] == c then 0 else 1 + IndexIn(s[1..], c)
  }

  lemma RowsApart()
    ensures forall i, j :: 0 <= i < j < |TOP_ROW| ==> TOP_ROW[i] != TOP_ROW[j]
    ensures forall i, j :: 0 <= i < j < |HOME_ROW| ==> HOME_ROW[i] != HOME_ROW[j]
    ensures forall i, j :: 0 <= i < j < |BOTTOM_ROW| ==> BOTTOM_ROW[i] != BOTTOM_ROW[j]
    ensures forall i, j :: 0 <= i < j < |SYMBOLS| ==> SYMBOLS[i] != SYMBOLS[j]
    ensures forall c :: c in TOP_ROW ==> c !in HOME_ROW && c !in BOTTOM_ROW && 'a' <= c <= 'z'
    ensures forall c :: c in HOME_ROW ==> c !in BOTTOM_ROW && 'a' <= c <= 'z'
    ensures forall c :: c in BOTTOM_ROW ==> 'a' <= c <= 'z'
  {
  }

  function LetterKey(c: char): byte {
    if c in TOP_ROW then 0x10 + IndexIn(TOP_ROW, c)
    else if c in HOME_ROW then 0x1E + IndexIn(HOME_ROW, c)
    else if c in BOTTOM_ROW then 0x2C + IndexIn(BOTTOM_ROW, c)
    else 0
  }

  lemma CasedKey(c: char, m: Modifiers)
    requires 'a' <= c <= 'z' && LetterKey(c) != 0
    ensures KeyOf(Cased(c, m)) == LetterKey(c)
  {
    hide IndexIn, LetterKey;
  }

  lemma RowKey(code: byte)
    ensures 0x10 <= code <= 0x19 ==> LetterKey(TOP_ROW[code - 0x10]) == code
    ensures 0x1E <= code <= 0x26 ==> LetterKey(HOME_ROW[code - 0x1E]) == code
    ensures 0x2C <= code <= 0x32 ==> LetterKey(BOTTOM_ROW[code - 0x2C]) == code
  {
    hide IndexIn;
    RowsApart();
  }

  lemma DigitKey(code: byte)
    requires 0x02 <= code <= 0x0B
    ensures KeyOf(DIGITS[code - 2] as int) == code
  {
    hide IndexIn;
  }

  lemma SymbolKey(code: byte)
    requires 0x02 <= code <= 0x0B
    ensures KeyOf(SYMBOLS[code - 2] as int) == code
  {
    hide IndexIn;
    var c := SYMBOLS[code - 2];
    RowsApart();
    assert c in SYMBOLS && c !in TOP_ROW && c !in HOME_ROW && c !in BOTTOM_ROW;
  }

  /** No two keys give the same character, whatever the modifiers. */
  lemma ConvertInvertible(code: byte, m: Modifiers)
    ensures Convert(code, m).1 != UNUSED ==> KeyOf(Convert(code, m).1) == code
  {
    hide KeyOf, LetterKey, Cased;
    RowsApart();
    RowKey(code);
    if 0x02 <= code <= 0x0B {
      DigitKey(code);
      SymbolKey(code);
    } else if 0x10 <= code <= 0x19 {
      CasedKey(TOP_ROW[code - 0x10], m);
    } else if 0x1E <= code <= 0x26 {
      CasedKey(HOME_ROW[code - 0x1E], m);
    } else if 0x2C <= code <= 0x32 {
      CasedKey(BOTTOM_ROW[code - 0x2C], m);
    } else if code == SPACE {
      SpaceKey();
    }
  }

  /** Letters are capital exactly under shift or caps; digit keys give digits exactly without shift. */
  lemma ConvertCase(code: byte, m: Modifiers)
    ensures 0x10 <= code <= 0x19 || 0x1E <= code <= 0x26 || 0x2C <= code <= 0x32 ==>
      ('A' as int <= Convert(code, m).1 <= 'Z' as int <==> m.shift || m.caps)
    ensures 0x02 <= code <= 0x0B ==> ('0' as int <= Convert(code, m).1 <= '9' as int <==> !m.shift)
  {
    RowsApart();
  }

  lemma SpaceKey()
    ensures KeyOf(' ' as int) == SPACE
  {
  }

  /** The modifiers after some scancodes, from none. */
  function ModifiersAfter(codes: seq<byte>): Modifiers {
    if codes == [] then Modifiers(false, false)
    else Convert(codes[|codes| - 1], ModifiersAfter(codes[..|codes| - 1])).0
  }

  /** The characters that some scancodes stand for, in order. */
  function Translate(codes: seq<byte>): seq<byte> {
    if codes == [] then []
    else
      var front := codes[..|codes| - 1];
      var ch := Convert(codes[|codes| - 1], ModifiersAfter(front)).1;
      Translate(front) + (if ch == UNUSED then [] else [ch])
  }

  function CapsPresses(codes: seq<byte>): nat {
    if codes == [] then 0
    else CapsPresses(codes[..|codes| - 1]) + (if codes[|codes| - 1] == CAPS then 1 else 0)
  }

  predicate ShiftEvent(code: byte) {
    code in {LSHIFT, RSHIFT, LSHIFT_RELEASE, RSHIFT_RELEASE, CAPS}
  }

  /** Caps is on after an odd number of presses. */
  lemma {:induction false} CapsIsParity(codes: seq<byte>)
    ensures ModifiersAfter(codes).caps <==> CapsPresses(codes) % 2 == 1
    decreases |codes|
  {
    if codes != [] { CapsIsParity(codes[..|codes| - 1]); }
  }

  /** The last press, release or caps event was a shift press. */
  ghost predicate ShiftPressedLast(codes: seq<byte>) {
    exists i :: 0 <= i < |codes| && PressedLastAt(codes, i)
  }

  predicate PressedLastAt(codes: seq<byte>, i: nat)
    requires i < |codes|
  {
    codes[i] in {LSHIFT, RSHIFT} && forall j :: i < j < |codes| ==> !ShiftEvent(codes[j])
  }

  lemma LastEventOf(codes: seq<byte>)
    requires codes != []
    ensures var last := |codes| - 1;
      ShiftPressedLast(codes) <==>
        if ShiftEvent(codes[last]) then codes[last] in {LSHIFT, RSHIFT} else ShiftPressedLast(codes[..last])
  {
    var last := |codes| - 1;
    var front := codes[..last];
    if codes[last] in {LSHIFT, RSHIFT} { assert PressedLastAt(codes, last); }
    forall i | 0 <= i < last && !ShiftEvent(codes[last])
      ensures PressedLastAt(front, i) <==> PressedLastAt(codes, i)
    {
      assert codes[i] == front[i];
      assert forall j :: i < j < |codes| ==> (codes[j] == if j < last then front[j] else codes[last]);
    }
  }

  /** Shift is on exactly when the last press, release or caps event was a shift press. */
  lemma {:induction false} ShiftIsLastEvent(codes: seq<byte>)
    ensures ModifiersAfter(codes).shift <==> ShiftPressedLast(codes)
    decreases |codes|
  {
    hide ShiftPressedLast;
    if codes != [] {
      LastEventOf(codes);
      ShiftIsLastEvent(codes[..|codes| - 1]);
    } else {
      NoShiftPressed();
    }
  }

  lemma NoShiftPressed()
    ensures !ShiftPressedLast([])
  {
  }

  // ----- the scancodes by name ----------------------------------------------------------

  const KBD_1: byte := 0x02
  const KBD_2: byte := 0x03
  const KBD_3: byte := 0x04
  const KBD_4: byte := 0x05
  const KBD_5: byte := 0x06
  const KBD_6: byte := 0x07
  const KBD_7: byte := 0x08
  const KBD_8: byte := 0x09
  const KBD_9: byte := 0x0A
  const KBD_0: byte := 0x0B
  const KBD_Q: byte := 0x10
  const KBD_W: byte := 0x11
  const KBD_E: byte := 0x12
  const KBD_R: byte := 0x13
  const KBD_T: byte := 0x14
  const KBD_Y: byte := 0x15
  const KBD_U: byte := 0x16
  const KBD_I: byte := 0x17
  const KBD_O: byte := 0x18
  const KBD_P: byte := 0x19
  const KBD_A: byte := 0x1E
  const KBD_S: byte := 0x1F
  const KBD_D: byte := 0x20
  const KBD_F: byte := 0x21
  const KBD_G: byte := 0x22
  const KBD_H: byte := 0x23
  const KBD_J: byte := 0x24
  const KBD_K: byte := 0x25
  const KBD_L: byte := 0x26
  const KBD_Z: byte := 0x2C
  const KBD_X: byte := 0x2D
  const KBD_C: byte := 0x2E
  const KBD_V: byte := 0x2F
  const KBD_B: byte := 0x30
  const KBD_N: byte := 0x31
  const KBD_M: byte := 0x32

  function Either(which: bool, yes: char, no: char): int {
    if which then yes as int else no as int
  }

  /** Each digit key by its name. */
  lemma DigitKeys(m: Modifiers)
    ensures Convert(KBD_1, m).1 == Either(m.shift, '!', '1')
    ensures Convert(KBD_2, m).1 == Either(m.shift, '@', '2')
    ensures Convert(KBD_3, m).1 == Either(m.shift, '#', '3')
    ensures Convert(KBD_4, m).1 == Either(m.shift, '$', '4')
    ensures Convert(KBD_5, m).1 == Either(m.shift, '%', '5')
    ensures Convert(KBD_6, m).1 == Either(m.shift, '^', '6')
    ensures Convert(KBD_7, m).1 == Either(m.shift, '&', '7')
    ensures Convert(KBD_8, m).1 == Either(m.shift, '*', '8')
    ensures Convert(KBD_9, m).1 == Either(m.shift, '(', '9')
    ensures Convert(KBD_0, m).1 == Either(m.shift, ')', '0')
  {
  }

  /** Each letter key by its name. */
  lemma TopRowKeys(m: Modifiers)
    ensures Convert(KBD_Q, m).1 == Either(m.shift || m.caps, 'Q', 'q')
    ensures Convert(KBD_W, m).1 == Either(m.shift || m.caps, 'W', 'w')
    ensures Convert(KBD_E, m).1 == Either(m.shift || m.caps, 'E', 'e')
    ensures Convert(KBD_R, m).1 == Either(m.shift || m.caps, 'R', 'r')
    ensures Convert(KBD_T, m).1 == Either(m.shift || m.caps, 'T', 't')
    ensures Convert(KBD_Y, m).1 == Either(m.shift || m.caps, 'Y', 'y')
    ensures Convert(KBD_U, m).1 == Either(m.shift || m.caps, 'U', 'u')
    ensures Convert(KBD_I, m).1 == Either(m.shift || m.caps, 'I', 'i')
    ensures Convert(KBD_O, m).1 == Either(m.shift || m.caps, 'O', 'o')
    ensures Convert(KBD_P, m).1 == Either(m.shift || m.caps, 'P', 'p')
  {
  }

  lemma HomeRowKeys(m: Modifiers)
    ensures Convert(KBD_A, m).1 == Either(m.shift || m.caps, 'A', 'a')
    ensures Convert(KBD_S, m).1 == Either(m.shift || m.caps, 'S', 's')
    ensures Convert(KBD_D, m).1 == Either(m.shift || m.caps, 'D', 'd')
    ensures Convert(KBD_F, m).1 == Either(m.shift || m.caps, 'F', 'f')
    ensures Convert(KBD_G, m).1 == Either(m.shift || m.caps, 'G', 'g')
    ensures Convert(KBD_H, m).1 == Either(m.shift || m.caps, 'H', 'h')
    ensures Convert(KBD_J, m).1 == Either(m.shift || m.caps, 'J', 'j')
    ensures Convert(KBD_K, m).1 == Either(m.shift || m.caps, 'K', 'k')
    ensures Convert(KBD_L, m).1 == Either(m.shift || m.caps, 'L', 'l')
  {
  }

  lemma BottomRowKeys(m: Modifiers)
    ensures Convert(KBD_Z, m).1 == Either(m.shift || m.caps, 'Z', 'z')
    ensures Convert(KBD_X, m).1 == Either(m.shift || m.caps, 'X', 'x')
    ensures Convert(KBD_C, m).1 == Either(m.shift || m.caps, 'C', 'c')
    ensures Convert(KBD_V, m).1 == Either(m.shift || m.caps, 'V', 'v')
    ensures Convert(KBD_B, m).1 == Either(m.shift || m.caps, 'B', 'b')
    ensures Convert(KBD_N, m).1 == Either(m.shift || m.caps, 'N', 'n')
    ensures Convert(KBD_M, m).1 == Either(m.shift || m.caps, 'M', 'm')
    ensures Convert(SPACE, m).1 == ' ' as int
  {
  }

  predicate IsLetterKey(code: byte) {
    0x10 <= code <= 0x19 || 0x1E <= code <= 0x26 || 0x2C <= code <= 0x32
  }

  /**
   Which keys give characters, and of what kind: letter keys always a letter, of the case that
   shift and caps ask for; digit keys a digit, or with shift one of ten symbols; the space key
   a space; and no other code any.
   */
  lemma CharacterKeys(code: byte, m: Modifiers)
    ensures Convert(code, m).1 != UNUSED <==> IsLetterKey(code) || KBD_1 <= code <= KBD_0 || code == SPACE
    ensures IsLetterKey(code) && (m.shift || m.caps) ==> 'A' as int <= Convert(code, m).1 <= 'Z' as int
    ensures IsLetterKey(code) && !m.shift && !m.caps ==> 'a' as int <= Convert(code, m).1 <= 'z' as int
    ensures KBD_1 <= code <= KBD_0 && !m.shift ==> '0' as int <= Convert(code, m).1 <= '9' as int
    ensures KBD_1 <= code <= KBD_0 && m.shift ==> Convert(code, m).1 < 128 && Convert(code, m).1 as char in "!@#$%^&*()"
    ensures code == SPACE ==> Convert(code, m).1 == ' ' as int
  {
    RowsApart();
  }

  /** Every letter, digit and symbol, and the space, is what its key gives under some modifiers. */
  lemma EveryCharacter(c: char) returns (code: byte, m: Modifiers)
    requires 'a' <= c <= 'z' || 'A' <= c <= 'Z' || '0' <= c <= '9' || c in "!@#$%^&*()" || c == ' '
    ensures Convert(code, m).1 == c as int
  {
    m := Modifiers(!('a' <= c <= 'z' || '0' <= c <= '9'), false);
    hide Convert;
    DigitKeys(m);
    TopRowKeys(m);
    HomeRowKeys(m);
    BottomRowKeys(m);
    match c {
      case '!' | '1' => code := KBD_1;
      case '@' | '2' => code := KBD_2;
      case '#' | '3' => code := KBD_3;
      case '$' | '4' => code := KBD_4;
      case '%' | '5' => code := KBD_5;
      case '^' | '6' => code := KBD_6;
      case '&' | '7' => code := KBD_7;
      case '*' | '8' => code := KBD_8;
      case '(' | '9' => code := KBD_9;
      case ')' | '0' => code := KBD_0;
      case 'Q' | 'q' => code := KBD_Q;
      case 'W' | 'w' => code := KBD_W;
      case 'E' | 'e' => code := KBD_E;
      case 'R' | 'r' => code := KBD_R;
      case 'T' | 't' => code := KBD_T;
      case 'Y' | 'y' => code := KBD_Y;
      case 'U' | 'u' => code := KBD_U;
      case 'I' | 'i' => code := KBD_I;
      case 'O' | 'o' => code := KBD_O;
      case 'P' | 'p' => code := KBD_P;
      case 'A' | 'a' => code := KBD_A;
      case 'S' | 's' => code := KBD_S;
      case 'D' | 'd' => code := KBD_D;
      case 'F' | 'f' => code := KBD_F;
      case 'G' | 'g' => code := KBD_G;
      case 'H' | 'h' => code := KBD_H;
      case 'J' | 'j' => code := KBD_J;
      case 'K' | 'k' => code := KBD_K;
      case 'L' | 'l' => code := KBD_L;
      case 'Z' | 'z' => code := KBD_Z;
      case 'X' | 'x' => code := KBD_X;
      case 'C' | 'c' => code := KBD_C;
      case 'V' | 'v' => code := KBD_V;
      case 'B' | 'b' => code := KBD_B;
      case 'N' | 'n' => code := KBD_N;
      case 'M' | 'm' => code := KBD_M;
      case _ => code := SPACE;
    }
  }

  // ----- the two rings and their history ----------------------------------------------

  /**
   Both rings' contents, what went through them, and for each translated character whether
   the second ring had room for it.
   */
  datatype State = State(
    m: Modifiers, codes: seq<byte>, chars: seq<byte>,
    accepted: seq<byte>, consumed: seq<byte>, kept: seq<bool>, delivered: seq<byte>)

  const EMPTY: State := State(Modifiers(false, false), [], [], [], [], [], [])

  function Enqueue(s: State, code: byte): State {
    if |s.codes| < KBD_BUFFER_SIZE then s.(codes := s.codes + [code], accepted := s.accepted + [code]) else s
  }

  function Read(s: State): State {
    if s.codes == [] then s
    else
      var (m, ch) := Convert(s.codes[0], s.m);
      var s1 := s.(m := m, codes := s.codes[1..], consumed := s.consumed + [s.codes[0]]);
      if ch == UNUSED then s1
      else if |s.chars| < KBD_BUFFER_SIZE then s1.(chars := s.chars + [ch], kept := s.kept + [true])
      else s1.(kept := s.kept + [false])
  }

  function Write(s: State): State {
    if s.chars == [] then s else s.(chars := s.chars[1..], delivered := s.delivered + [s.chars[0]])
  }

  function Handle(s: State, code: byte): State {
    if |s.codes| < KBD_BUFFER_SIZE then Write(Read(Enqueue(s, code))) else s
  }

  /** The elements whose flag is set, in order. */
  function Keep(cs: seq<byte>, flags: seq<bool>): seq<byte>
    requires |cs| == |flags|
  {
    if cs == [] then []
    else Keep(cs[..|cs| - 1], flags[..|cs| - 1]) + (if flags[|cs| - 1] then [cs[|cs| - 1]] else [])
  }

  /**
   Accepted scancodes are consumed in order, and what was delivered followed by what waits
   is the translation of the consumed ones, less the characters that found the ring full.
   */
  ghost predicate Consistent(s: State) {
    && |s.codes| <= KBD_BUFFER_SIZE && |s.chars| <= KBD_BUFFER_SIZE
    && s.accepted == s.consumed + s.codes
    && s.m == ModifiersAfter(s.consumed)
    && |s.kept| == |Translate(s.consumed)|
    && s.delivered + s.chars == Keep(Translate(s.consumed), s.kept)
  }

  datatype Event = Key(code: byte) | DoRead | DoWrite

  function Apply(s: State, e: Event): State {
    match e
    case Key(code) => Enqueue(s, code)
    case DoRead => Read(s)
    case DoWrite => Write(s)
  }

  /**
   What one event does to what passes by: a scancode is accepted exactly when its ring holds
   fewer than 1000, a read consumes the oldest waiting scancode if there is one, a write
   delivers the oldest waiting character if there is one; nothing else passes.
   */
  lemma EventEffect(s: State, e: Event)
    ensures var t := Apply(s, e);
      && t.accepted == (if e.Key? && |s.codes| < 1000 then s.accepted + [e.code] else s.accepted)
      && t.consumed == (if e.DoRead? && s.codes != [] then s.consumed + [s.codes[0]] else s.consumed)
      && t.delivered == (if e.DoWrite? && s.chars != [] then s.delivered + [s.chars[0]] else s.delivered)
  {
  }

  function ApplyAll(s: State, es: seq<Event>): State {
    if es == [] then s else Apply(ApplyAll(s, es[..|es| - 1]), es[|es| - 1])
  }

  lemma TranslateSnoc(codes: seq<byte>, c: byte)
    ensures var (m, ch) := Convert(c, ModifiersAfter(codes));
      && ModifiersAfter(codes + [c]) == m
      && Translate(codes + [c]) == Translate(codes) + (if ch == UNUSED then [] else [ch])
  {
    hide Convert;
    assert (codes + [c])[..|codes|] == codes;
  }

  lemma KeepSnoc(cs: seq<byte>, flags: seq<bool>, c: byte, flag: bool)
    requires |cs| == |flags|
    ensures Keep(cs + [c], flags + [flag]) == Keep(cs, flags) + (if flag then [c] else [])
  {
    assert (cs + [c])[..|cs|] == cs && (flags + [flag])[..|flags|] == flags;
  }

  lemma ReadConsistent(s: State)
    requires Consistent(s)
    ensures Consistent(Read(s))
  {
    hide Convert, Translate, ModifiersAfter, Keep;
    if s.codes != [] {
      var c := s.codes[0];
      TranslateSnoc(s.consumed, c);
      assert s.accepted == s.consumed + [c] + s.codes[1..];
      var ch := Convert(c, s.m).1;
      if ch != UNUSED {
        KeepSnoc(Translate(s.consumed), s.kept, ch, |s.chars| < KBD_BUFFER_SIZE);
        assert s.delivered + (s.chars + [ch]) == s.delivered + s.chars + [ch];
        assert Keep(Translate(s.consumed), s.kept) + [] == Keep(Translate(s.consumed), s.kept);
      } else {
        assert Translate(s.consumed) + [] == Translate(s.consumed);
      }
      assert s.consumed + [c] + s.codes[1..] == s.consumed + s.codes;
    }
  }

  lemma StepConsistent(s: State, e: Event)
    requires Consistent(s)
    ensures Consistent(Apply(s, e))
  {
    match e
    case Key(code) =>
      assert s.consumed + (s.codes + [code]) == s.consumed + s.codes + [code];
    case DoRead =>
      ReadConsistent(s);
    case DoWrite =>
      if s.chars != [] {
        assert s.chars == [s.chars[0]] + s.chars[1..];
        assert s.delivered + s.chars == s.delivered + [s.chars[0]] + s.chars[1..];
      }
  }

  /** Any interleaving of key presses, reads and writes, from the empty rings. */
  lemma {:induction false} InterleavingConsistent(es: seq<Event>)
    ensures Consistent(ApplyAll(EMPTY, es))
    decreases |es|
  {
    if es != [] {
      InterleavingConsistent(es[..|es| - 1]);
      StepConsistent(ApplyAll(EMPTY, es[..|es| - 1]), es[|es| - 1]);
    }
  }

  /**
   A translated character is dropped exactly when it found the second ring full: the k-th one
   arrived in some read of the run, and was kept when that ring held fewer than 1000 then.
   */
  lemma {:induction false} DropsOnlyWhenFull(es: seq<Event>, k: nat) returns (p: nat)
    requires k < |ApplyAll(EMPTY, es).kept|
    ensures p < |es| && es[p] == DoRead
    ensures var s := ApplyAll(EMPTY, es[..p]);
      |s.kept| == k && (ApplyAll(EMPTY, es).kept[k] <==> |s.chars| < KBD_BUFFER_SIZE)
    decreases |es|
  {
    hide Convert;
    var last := |es| - 1;
    var s := ApplyAll(EMPTY, es[..last]);
    if k < |s.kept| {
      p := DropsOnlyWhenFull(es[..last], k);
      assert es[..last][..p] == es[..p];
    } else {
      p := last;
    }
  }

  function HandleAll(codes: seq<byte>): State {
    if codes == [] then EMPTY else Handle(HandleAll(codes[..|codes| - 1]), codes[|codes| - 1])
  }

  lemma TranslateNothing()
    ensures Translate([]) == [] && ModifiersAfter([]) == Modifiers(false, false)
  {
  }

  lemma HandleFromEmpty(s: State, code: byte)
    requires s.codes == [] && s.chars == []
    ensures var t := Handle(s, code); var (m, ch) := Convert(code, s.m);
      && t.codes == [] && t.chars == [] && t.m == m && t.consumed == s.consumed + [code]
      && t.delivered == s.delivered + (if ch == UNUSED then [] else [ch])
  {
    hide Convert;
    assert [code][1..] == [];
  }

  /** Under the interrupt handler both rings drain at once: nothing waits and nothing is lost. */
  lemma {:induction false} HandlerDropsNothing(codes: seq<byte>)
    ensures var s := HandleAll(codes);
      && s.codes == [] && s.chars == []
      && s.consumed == codes && s.m == ModifiersAfter(codes)
      && s.delivered == Translate(codes)
    decreases |codes|
  {
    hide Convert, Translate, ModifiersAfter, Handle;
    TranslateNothing();
    if codes != [] {
      var last := |codes| - 1;
      HandlerDropsNothing(codes[..last]);
      TranslateSnoc(codes[..last], codes[last]);
      assert codes[..last] + [codes[last]] == codes;
      HandleFromEmpty(HandleAll(codes[..last]), codes[last]);
    }
  }

  // ----- a ring on its array ----------------------------------------------------------

  function Slot(head: nat, j: nat): nat {
    if head + j < KBD_BUFFER_SIZE then head + j else head + j - KBD_BUFFER_SIZE
  }

  class RingBuffer {
    const buffer: array<byte>
    var head: nat
    var tail: nat
    var count: nat
    ghost var contents: seq<byte>

    ghost predicate Valid()
      reads this, buffer
    {
      && buffer.Length == KBD_BUFFER_SIZE && head < KBD_BUFFER_SIZE
      && count == |contents| <= KBD_BUFFER_SIZE
      && tail == (head + count) % KBD_BUFFER_SIZE
      && forall j :: 0 <= j < count ==> contents[j] == buffer[Slot(head, j)]
    }

    constructor ()
      ensures Valid() && contents == [] && fresh(buffer)
    {
      buffer := new byte[KBD_BUFFER_SIZE];
      head, tail, count := 0, 0, 0;
      contents := [];
    }

    /** Stores at the tail. */
    method Add(b: byte)
      requires Valid() && count < KBD_BUFFER_SIZE
      modifies this, buffer
      ensures Valid() && contents == old(contents) + [b]
    {
      buffer[tail] := b;
      tail := tail + 1;
      count := count + 1;
      if tail == KBD_BUFFER_SIZE { tail := 0; }
      contents := contents + [b];
    }

    /** Takes from the head. */
    method Remove() returns (b: byte)
      requires Valid() && count != 0
      modifies this
      ensures Valid() && b == old(contents)[0] && contents == old(contents)[1..]
    {
      b := buffer[head];
      head := head + 1;
      if head == KBD_BUFFER_SIZE { head := 0; }
      count := count - 1;
      contents := contents[1..];
    }
  }

  class Driver {
    const scancodes: RingBuffer
    const chars: RingBuffer
    var isShiftKeyOn: bool
    var isCapsLockOn: bool
    ghost var s: State

    ghost predicate Valid()
      reads this, scancodes, scancodes.buffer, chars, chars.buffer
    {
      && scancodes != chars && scancodes.buffer != chars.buffer
      && scancodes.Valid() && chars.Valid()
      && s.codes == scancodes.contents && s.chars == chars.contents
      && s.m == Modifiers(isShiftKeyOn, isCapsLockOn)
    }

    /** install_keyboard. */
    constructor ()
      ensures Valid() && s == EMPTY
    {
      scancodes := new RingBuffer();
      chars := new RingBuffer();
      isShiftKeyOn, isCapsLockOn := false, false;
      s := EMPTY;
    }

    /** The switch over the scancodes, case by case. */
    method ConvertScancode(code: byte) returns (ch: byte)
      modifies `isShiftKeyOn, `isCapsLockOn
      ensures (Modifiers(isShiftKeyOn, isCapsLockOn), ch) == Convert(code, old(Modifiers(isShiftKeyOn, isCapsLockOn)))
    {
      var upper := isShiftKeyOn || isCapsLockOn;
      var c := UNUSED as char;
      match code {
        case 0x2A | 0x36 => isShiftKeyOn := true;
        case 0x3A =>
          isCapsLockOn := !isCapsLockOn;
          isShiftKeyOn := false;
        case 0xAA | 0xB6 => isShiftKeyOn := false;
        case 0x02 => c := if isShiftKeyOn then '!' else '1';
        case 0x03 => c := if isShiftKeyOn then '@' else '2';
        case 0x04 => c := if isShiftKeyOn then '#' else '3';
        case 0x05 => c := if isShiftKeyOn then '$' else '4';
        case 0x06 => c := if isShiftKeyOn then '%' else '5';
        case 0x07 => c := if isShiftKeyOn then '^' else '6';
        case 0x08 => c := if isShiftKeyOn then '&' else '7';
        case 0x09 => c := if isShiftKeyOn then '*' else '8';
        case 0x0A => c := if isShiftKeyOn then '(' else '9';
        case 0x0B => c := if isShiftKeyOn then ')' else '0';
        case 0x10 => c := if upper then 'Q' else 'q';
        case 0x11 => c := if upper then 'W' else 'w';
        case 0x12 => c := if upper then 'E' else 'e';
        case 0x13 => c := if upper then 'R' else 'r';
        case 0x14 => c := if upper then 'T' else 't';
        case 0x15 => c := if upper then 'Y' else 'y';
        case 0x16 => c := if upper then 'U' else 'u';
        case 0x17 => c := if upper then 'I' else 'i';
        case 0x18 => c := if upper then 'O' else 'o';
        case 0x19 => c := if upper then 'P' else 'p';
        case 0x1E => c := if upper then 'A' else 'a';
        case 0x1F => c := if upper then 'S' else 's';
        case 0x20 => c := if upper then 'D' else 'd';
        case 0x21 => c := if upper then 'F' else 'f';
        case 0x22 => c := if upper then 'G' else 'g';
        case 0x23 => c := if upper then 'H' else 'h';
        case 0x24 => c := if upper then 'J' else 'j';
        case 0x25 => c := if upper then 'K' else 'k';
        case 0x26 => c := if upper then 'L' else 'l';
        case 0x2C => c := if upper then 'Z' else 'z';
        case 0x2D => c := if upper then 'X' else 'x';
        case 0x2E => c := if upper then 'C' else 'c';
        case 0x2F => c := if upper then 'V' else 'v';
        case 0x30 => c := if upper then 'B' else 'b';
        case 0x31 => c := if upper then 'N' else 'n';
        case 0x32 => c := if upper then 'M' else 'm';
        case 0x39 => c := ' ';
        case _ => c := UNUSED as char;
      }
      ch := c as int;
    }

    method KeyboardRead()
      requires Valid()
      modifies this, scancodes, chars, chars.buffer
      ensures Valid() && s == Read(old(s))
    {
      if scancodes.count != 0 {
        var code := scancodes.buffer[scancodes.head];
        var ch := ConvertScancode(code);
        var _ := scancodes.Remove();
        if ch != UNUSED && chars.count < KBD_BUFFER_SIZE {
          chars.Add(ch);
        }
      }
      s := Read(s);
    }

    method KeyboardWrite()
      requires Valid()
      modifies this, chars
      ensures Valid() && s == Write(old(s))
    {
      if chars.count != 0 {
        var _ := chars.Remove();
      }
      s := Write(s);
    }

    method KeyboardInterruptHandler(code: byte)
      requires Valid()
      modifies this, scancodes, scancodes.buffer, chars, chars.buffer
      ensures Valid() && s == Handle(old(s), code)
      ensures if |old(s).codes| < 1000 then s == Apply(Apply(Apply(old(s), Key(code)), DoRead), DoWrite)
              else s == old(s)
    {
      if scancodes.count < KBD_BUFFER_SIZE {
        scancodes.Add(code);
        s := Enqueue(s, code);
        KeyboardRead();
        KeyboardWrite();
      }
    }
  }
}
