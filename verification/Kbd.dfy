/** The PS/2 keyboard (src/kernel/kbd.c): scancodes enter a ring buffer from two places,
    the interrupt and the status poll, and leave through a scancode decoder. */
module Kbd {
  import opened Wrappers
  import opened Bytes
  import opened KeyCodes

  const BUFSZ: nat := 256

  // -------------------------------------------------------------- decoding

  /** shift_l, shift_r, caps and ext. */
  datatype Mode = Mode(shiftL: bool, shiftR: bool, caps: bool, ext: bool) {
    predicate Shift() { shiftL || shiftR }
  }

  /** The four character rows of map_lo and map_hi, and the keypad they share. */
  const LO_DIGITS: string := "1234567890-="
  const LO_TOP: string := "qwertyuiop[]"
  const LO_HOME: string := "asdfghjkl;'`"
  const LO_BOTTOM: string := "\\zxcvbnm,./"
  const HI_DIGITS: string := "!@#$%^&*()_+"
  const HI_TOP: string := "QWERTYUIOP{}"
  const HI_HOME: string := "ASDFGHJKL:\"~"
  const HI_BOTTOM: string := "|ZXCVBNM<>?"
  const KEYPAD: string := "789-456+1230."

  /** What a set-1 make code means whatever the shift: NUL where it means nothing. */
  function MapBoth(sc: nat): int {
    if sc == 1 then 27
    else if sc == 14 then 8
    else if sc == 15 then 9
    else if sc == 28 then 10
    else if sc == 55 then '*' as int
    else if sc == 57 then ' ' as int
    else if 71 <= sc < 84 then KEYPAD[sc - 71] as int
    else 0
  }

  /** map_lo: the US layout. */
  function MapLo(sc: nat): int {
    if 2 <= sc < 14 then LO_DIGITS[sc - 2] as int
    else if 16 <= sc < 28 then LO_TOP[sc - 16] as int
    else if 30 <= sc < 42 then LO_HOME[sc - 30] as int
    else if 43 <= sc < 54 then LO_BOTTOM[sc - 43] as int
    else MapBoth(sc)
  }

  /** map_hi: the same with shift. */
  function MapHi(sc: nat): int {
    if 2 <= sc < 14 then HI_DIGITS[sc - 2] as int
    else if 16 <= sc < 28 then HI_TOP[sc - 16] as int
    else if 30 <= sc < 42 then HI_HOME[sc - 30] as int
    else if 43 <= sc < 54 then HI_BOTTOM[sc - 43] as int
    else MapBoth(sc)
  }

  predicate Lower(c: int) { 'a' as int <= c <= 'z' as int }

  predicate Upper(c: int) { 'A' as int <= c <= 'Z' as int }

  function ExtendedKey(sc: int): Option<int> {
    if sc == 0x48 then Some(KEY_UP) else if sc == 0x50 then Some(KEY_DOWN)
    else if sc == 0x4B then Some(KEY_LEFT) else if sc == 0x4D then Some(KEY_RIGHT)
    else if sc == 0x53 then Some(KEY_DEL) else if sc == 0x47 then Some(KEY_HOME)
    else if sc == 0x4F then Some(KEY_END) else if sc == 0x1C then Some(10)
    else None
  }

  function ModeAfter(m: Mode, sc: byte): Mode {
    if sc == 0xE0 then m.(ext := true)
    else if m.ext then m.(ext := false)
    else if sc == 0xAA then m.(shiftL := false)
    else if sc == 0xB6 then m.(shiftR := false)
    else if sc == 0x2A then m.(shiftL := true)
    else if sc == 0x36 then m.(shiftR := true)
    else if sc == 0x3A then m.(caps := !m.caps)
    else m
  }

  /** What one scancode types. */
  function Typed(m: Mode, sc: byte): Option<int> {
    if sc == 0xE0 then None
    else if m.ext then (if sc >= 128 then None else ExtendedKey(sc))
    else if sc >= 128 || sc == 0x2A || sc == 0x36 || sc == 0x3A then None
    else
      var c := if m.Shift() then MapHi(sc) else MapLo(sc);
      if c == 0 then None
      else if m.caps && Lower(c) && !m.Shift() then Some(c - 32)
      else if m.caps && Upper(c) && m.Shift() then Some(c + 32)
      else Some(c)
  }

  function ModeOver(m: Mode, bytes: seq<byte>): Mode
    decreases |bytes|
  {
    if bytes == [] then m else ModeAfter(ModeOver(m, bytes[..|bytes| - 1]), bytes[|bytes| - 1])
  }

  function KeyList(k: Option<int>): seq<int> { if k.Some? then [k.value] else [] }

  /** The keys a run of scancodes types. */
  function KeysOf(m: Mode, bytes: seq<byte>): seq<int>
    decreases |bytes|
  {
    if bytes == [] then []
    else KeysOf(m, bytes[..|bytes| - 1])
         + KeyList(Typed(ModeOver(m, bytes[..|bytes| - 1]), bytes[|bytes| - 1]))
  }

  lemma {:induction false} KeysJoin(m: Mode, a: seq<byte>, b: seq<byte>)
    ensures ModeOver(m, a + b) == ModeOver(ModeOver(m, a), b)
    ensures KeysOf(m, a + b) == KeysOf(m, a) + KeysOf(ModeOver(m, a), b)
    decreases |b|
  {
    if b == [] {
      assert a + b == a;
    } else {
      assert (a + b)[..|a + b| - 1] == a + b[..|b| - 1];
      KeysJoin(m, a, b[..|b| - 1]);
    }
  }

  lemma LetterPair(sc: nat)
    requires Lower(MapLo(sc))
    ensures MapHi(sc) == MapLo(sc) - 32 && sc < 54 && sc != 0x2A && sc != 0x36 && sc != 0x3A
  {
  }

  /** A letter key types its capital exactly when one of shift and caps lock is on. */
  lemma LetterCase(m: Mode, sc: byte)
    requires !m.ext && Lower(MapLo(sc))
    ensures Typed(m, sc) == Some(if m.Shift() != m.caps then MapLo(sc) - 32 else MapLo(sc))
  {
    hide MapLo, MapHi;
    LetterPair(sc);
  }

  // ---------------------------------------------------------------- typing

  /** One key struck, with or without the left shift held around it. */
  datatype Stroke = Stroke(sc: nat, shifted: bool) {
    function Char(): int { if shifted then MapHi(sc) else MapLo(sc) }

    predicate Real() { sc < 84 && Char() != 0 }

    /** What the keyboard sends: make and break codes. */
    function Sends(): seq<byte>
      requires Real()
    {
      if shifted then [0x2A, sc, sc + 128, 0xAA] else [sc, sc + 128]
    }
  }

  function Idle(caps: bool): Mode { Mode(false, false, caps, false) }

  function SendsAll(ks: seq<Stroke>): seq<byte>
    requires forall i :: 0 <= i < |ks| ==> ks[i].Real()
  {
    if ks == [] then [] else SendsAll(ks[..|ks| - 1]) + ks[|ks| - 1].Sends()
  }

  /** What a character becomes under caps lock. */
  function Capped(caps: bool, shifted: bool, c: int): int {
    if caps && !shifted && Lower(c) then c - 32
    else if caps && shifted && Upper(c) then c + 32
    else c
  }

  lemma KeysTwo(m: Mode, x: byte, y: byte)
    ensures ModeOver(m, [x, y]) == ModeAfter(ModeAfter(m, x), y)
    ensures KeysOf(m, [x, y]) == KeyList(Typed(m, x)) + KeyList(Typed(ModeAfter(m, x), y))
  {
    hide MapLo, MapHi, Typed;
    assert [x][..0] == [] && [x, y][..1] == [x];
    assert ModeOver(m, [x]) == ModeAfter(m, x) && KeysOf(m, [x]) == KeyList(Typed(m, x));
  }

  lemma MapGaps(sc: nat)
    requires sc == 0x2A || sc == 0x36 || sc == 0x3A
    ensures MapLo(sc) == 0 && MapHi(sc) == 0
  {
  }

  /** A real make code types its character and is no modifier; its break types nothing. */
  lemma CodeTypes(k: Stroke, m: Mode)
    requires k.Real() && !m.ext && m.Shift() == k.shifted
    ensures ModeAfter(m, k.sc) == m && Typed(m, k.sc) == Some(Capped(m.caps, k.shifted, k.Char()))
    ensures ModeAfter(m, k.sc + 128) == m && Typed(m, k.sc + 128) == None
  {
    hide MapLo, MapHi;
    MapGaps(0x2A);
    MapGaps(0x36);
    MapGaps(0x3A);
  }

  lemma StrokeTypes(k: Stroke, caps: bool)
    requires k.Real()
    ensures ModeOver(Idle(caps), k.Sends()) == Idle(caps)
    ensures KeysOf(Idle(caps), k.Sends()) == [Capped(caps, k.shifted, k.Char())]
  {
    hide MapLo, MapHi, Typed, ModeOver, KeysOf, Capped;
    var m := if k.shifted then Idle(caps).(shiftL := true) else Idle(caps);
    CodeTypes(k, m);
    KeysTwo(m, k.sc, k.sc + 128);
    if k.shifted {
      ShiftAround(caps);
      KeysTwo(Idle(caps), 0x2A, k.sc);
      KeysTwo(m, k.sc + 128, 0xAA);
      KeysJoin(Idle(caps), [0x2A, k.sc], [k.sc + 128, 0xAA]);
      assert k.Sends() == [0x2A, k.sc] + [k.sc + 128, 0xAA];
    }
  }

  lemma ShiftAround(caps: bool)
    ensures var m := Idle(caps).(shiftL := true);
            && ModeAfter(Idle(caps), 0x2A) == m && Typed(Idle(caps), 0x2A) == None
            && ModeAfter(m, 0xAA) == Idle(caps) && Typed(m, 0xAA) == None
  {
    hide MapLo, MapHi;
  }

  /** Typing any strokes yields their characters, one each, and leaves the keyboard idle. */
  lemma {:induction false} TypingTypes(ks: seq<Stroke>, caps: bool)
    requires forall i :: 0 <= i < |ks| ==> ks[i].Real()
    ensures ModeOver(Idle(caps), SendsAll(ks)) == Idle(caps)
    ensures |KeysOf(Idle(caps), SendsAll(ks))| == |ks|
    ensures forall i :: 0 <= i < |ks| ==>
              KeysOf(Idle(caps), SendsAll(ks))[i] == Capped(caps, ks[i].shifted, ks[i].Char())
  {
    hide MapLo, MapHi, Typed, Capped;
    if ks != [] {
      var front, last := ks[..|ks| - 1], ks[|ks| - 1];
      TypingTypes(front, caps);
      StrokeTypes(last, caps);
      KeysJoin(Idle(caps), SendsAll(front), last.Sends());
      assert KeysOf(Idle(caps), SendsAll(ks))
          == KeysOf(Idle(caps), SendsAll(front)) + [Capped(caps, last.shifted, last.Char())];
    }
  }

  lemma KeyIn(row: string, first: nat, ch: char, shifted: bool) returns (k: Stroke)
    requires ch in row && ch as int != 0 && first + |row| <= 84
    requires forall i :: 0 <= i < |row| ==> Stroke(first + i, shifted).Char() == row[i] as int
    ensures k.Real() && k.Char() == ch as int
  {
    var i :| 0 <= i < |row| && row[i] == ch;
    k := Stroke(first + i, shifted);
  }

  /** Every printable character is on the keyboard. */
  lemma Reachable(c: int) returns (k: Stroke)
    requires 0x20 <= c <= 0x7E
    ensures k.Real() && k.Char() == c
  {
    var ch := c as char;
    if ch in LO_DIGITS { k := KeyIn(LO_DIGITS, 2, ch, false); }
    else if ch in LO_TOP { k := KeyIn(LO_TOP, 16, ch, false); }
    else if ch in LO_HOME { k := KeyIn(LO_HOME, 30, ch, false); }
    else if ch in LO_BOTTOM { k := KeyIn(LO_BOTTOM, 43, ch, false); }
    else if ch in HI_DIGITS { k := KeyIn(HI_DIGITS, 2, ch, true); }
    else if ch in HI_TOP { k := KeyIn(HI_TOP, 16, ch, true); }
    else if ch in HI_HOME { k := KeyIn(HI_HOME, 30, ch, true); }
    else if ch in HI_BOTTOM { k := KeyIn(HI_BOTTOM, 43, ch, true); }
    else { k := Stroke(57, false); }
  }

  /** Round trip: any printable text can be struck so that the decoder yields exactly it. */
  lemma {:induction false} AnyTextTypable(text: seq<int>) returns (ks: seq<Stroke>)
    requires forall i :: 0 <= i < |text| ==> 0x20 <= text[i] <= 0x7E
    ensures forall i :: 0 <= i < |ks| ==> ks[i].Real()
    ensures KeysOf(Idle(false), SendsAll(ks)) == text && ModeOver(Idle(false), SendsAll(ks)) == Idle(false)
  {
    ks := [];
    for n := 0 to |text|
      invariant |ks| == n && forall i :: 0 <= i < n ==> ks[i].Real() && ks[i].Char() == text[i]
    {
      var k := Reachable(text[n]);
      ks := ks + [k];
    }
    TypingTypes(ks, false);
  }

  // ------------------------------------------------ the keyboard, key by key

  /** The set-1 codes of the letters a to z. */
  const LETTERS: seq<byte> := [30, 48, 46, 32, 18, 33, 34, 35, 23, 36, 37, 38, 50, 49, 24, 25, 16, 19, 31, 20, 22, 47,
                               17, 45, 21, 44]

  /** The other typing keys of a US keyboard: code, plain, shifted. */
  const SIGNS: seq<(byte, int, int)> :=
    [(2, 0x31, 0x21), (3, 0x32, 0x40), (4, 0x33, 0x23), (5, 0x34, 0x24), (6, 0x35, 0x25), (7, 0x36, 0x5E),
     (8, 0x37, 0x26), (9, 0x38, 0x2A), (10, 0x39, 0x28), (11, 0x30, 0x29), (12, 0x2D, 0x5F), (13, 0x3D, 0x2B),
     (26, 0x5B, 0x7B), (27, 0x5D, 0x7D), (39, 0x3B, 0x3A), (40, 0x27, 0x22), (41, 0x60, 0x7E), (43, 0x5C, 0x7C),
     (51, 0x2C, 0x3C), (52, 0x2E, 0x3E), (53, 0x2F, 0x3F), (57, 0x20, 0x20),
     (1, 27, 27), (14, 8, 8), (15, 9, 9), (28, 10, 10), (55, 0x2A, 0x2A)]

  /** Codes of the number pad, with what it types. */
  const PAD: seq<(byte, int)> :=
    [(71, 0x37), (72, 0x38), (73, 0x39), (74, 0x2D), (75, 0x34), (76, 0x35), (77, 0x36), (78, 0x2B), (79, 0x31),
     (80, 0x32), (81, 0x33), (82, 0x30), (83, 0x2E)]

  /** Every letter key types its letter. */
  lemma LetterKeys(i: nat)
    requires i < 26
    ensures Types(LETTERS[i], i)
  {
    hide Types;
    if i < 7 { LettersTo(i, 0); } else if i < 14 { LettersTo(i, 7); } else { LettersTo(i, if i < 20 then 14 else 20); }
  }

  predicate Types(sc: byte, i: nat) {
    16 <= sc <= 50 && sc != 42 && MapLo(sc) == 0x61 + i && MapHi(sc) == 0x41 + i
  }

  lemma LettersTo(i: nat, from: nat)
    requires from == 0 || from == 7 || from == 14 || from == 20
    requires from <= i < 26 && i < from + 7
    ensures Types(LETTERS[i], i)
  {
  }

  lemma SignKeys(i: nat)
    requires i < 27
    ensures MapLo(SIGNS[i].0) == SIGNS[i].1 && MapHi(SIGNS[i].0) == SIGNS[i].2
  {
  }

  lemma PadKeys(i: nat)
    requires i < 13
    ensures MapLo(PAD[i].0) == MapHi(PAD[i].0) == PAD[i].1
  {
  }

  /** No other key types anything, the modifiers and function keys in particular. */
  lemma NoOtherKeys(sc: byte)
    requires sc !in LETTERS
    requires forall i :: 0 <= i < 27 ==> sc != SIGNS[i].0
    requires forall i :: 0 <= i < 13 ==> sc != PAD[i].0
    ensures MapLo(sc) == 0 == MapHi(sc)
  {
    assert forall i :: 0 <= i < 26 ==> LETTERS[i] in LETTERS;
    if 16 <= sc < 26 { OnARow(sc); }
    if 30 <= sc < 39 { OnARow(sc); }
    if 44 <= sc < 51 { OnARow(sc); }
    if 2 <= sc < 14 || sc == 26 || sc == 27 || 39 <= sc < 42 || sc == 43 || 51 <= sc < 54 { ASign(sc); }
    if 71 <= sc < 84 { APad(sc); }
    assert sc != SIGNS[21].0 && sc != SIGNS[22].0 && sc != SIGNS[23].0 && sc != SIGNS[24].0;
    assert sc != SIGNS[25].0 && sc != SIGNS[26].0;
  }

  lemma OnARow(sc: byte)
    requires 16 <= sc < 26 || 30 <= sc < 39 || 44 <= sc < 51
    ensures sc in LETTERS
  {
    var i := if sc == 30 then 0 else if sc == 48 then 1 else if sc == 46 then 2 else if sc == 32 then 3
             else if sc == 18 then 4 else if sc == 33 then 5 else if sc == 34 then 6 else if sc == 35 then 7
             else if sc == 23 then 8 else if sc == 36 then 9 else if sc == 37 then 10 else if sc == 38 then 11
             else if sc == 50 then 12 else if sc == 49 then 13 else if sc == 24 then 14 else if sc == 25 then 15
             else if sc == 16 then 16 else if sc == 19 then 17 else if sc == 31 then 18 else if sc == 20 then 19
             else if sc == 22 then 20 else if sc == 47 then 21 else if sc == 17 then 22 else if sc == 45 then 23
             else if sc == 21 then 24 else 25;
    assert LETTERS[i] == sc;
  }

  lemma ASign(sc: byte)
    requires 2 <= sc < 14 || sc == 26 || sc == 27 || 39 <= sc < 42 || sc == 43 || 51 <= sc < 54
    ensures exists i :: 0 <= i < 27 && sc == SIGNS[i].0
  {
    var i := if sc < 14 then sc - 2 else if sc < 28 then sc - 14 else if sc < 42 then sc - 25
             else if sc == 43 then 17 else sc - 33;
    assert sc == SIGNS[i].0;
  }

  lemma APad(sc: byte)
    requires 71 <= sc < 84
    ensures exists i :: 0 <= i < 13 && sc == PAD[i].0
  {
    assert sc == PAD[sc - 71].0;
  }

  /** The grey keys, after 0xE0: cursor keys, Delete, Home, End and the pad's Enter. Letting
      one go types nothing. */
  lemma GreyKeys(caps: bool)
    ensures KeysOf(Idle(caps), [0xE0, 0x48]) == [0x100] && KeysOf(Idle(caps), [0xE0, 0x50]) == [0x101]
    ensures KeysOf(Idle(caps), [0xE0, 0x4B]) == [0x102] && KeysOf(Idle(caps), [0xE0, 0x4D]) == [0x103]
    ensures KeysOf(Idle(caps), [0xE0, 0x53]) == [0x104] && KeysOf(Idle(caps), [0xE0, 0x47]) == [0x105]
    ensures KeysOf(Idle(caps), [0xE0, 0x4F]) == [0x106] && KeysOf(Idle(caps), [0xE0, 0x1C]) == [10]
    ensures forall sc: byte :: sc >= 128 && sc != 0xE0 ==> KeysOf(Idle(caps), [0xE0, sc]) == []
    ensures forall sc: byte :: sc != 0xE0 ==> ModeOver(Idle(caps), [0xE0, sc]) == Idle(caps)
  {
    hide KeysOf, ModeOver;
    forall sc: byte ensures KeysOf(Idle(caps), [0xE0, sc]) == KeyList(Typed(Idle(caps).(ext := true), sc))
                       && ModeOver(Idle(caps), [0xE0, sc]) == ModeAfter(Idle(caps).(ext := true), sc) {
      KeysTwo(Idle(caps), 0xE0, sc);
    }
  }

  lemma OneLetter(sc: byte, i: nat, shift: byte)
    requires Types(sc, i) && (shift == 0x2A || shift == 0x36) && i < 26
    ensures forall m: Mode :: !m.ext ==>
              && Typed(m, sc) == Some(if m.Shift() == m.caps then 0x61 + i else 0x41 + i) && ModeAfter(m, sc) == m
              && Typed(m, sc + 128) == None && Typed(m, shift) == None
              && Typed(m, 0x3A) == None && Typed(m, 0xBA) == None
              && ModeAfter(m, 0x3A) == m.(caps := !m.caps) && ModeAfter(m, 0xBA) == m
    ensures forall caps :: !ModeAfter(Idle(caps), shift).ext && ModeAfter(Idle(caps), shift).Shift()
                           && ModeAfter(Idle(caps), shift).caps == caps
                           && ModeAfter(ModeAfter(Idle(caps), shift), shift + 128) == Idle(caps)
  {
    hide MapLo, MapHi;
  }

  /** Either shift key, held down, and Caps Lock, struck, each give capitals; together they
      give small letters. */
  lemma Capitals(i: nat, shift: byte)
    requires i < 26 && (shift == 0x2A || shift == 0x36)
    ensures KeysOf(Idle(false), [LETTERS[i], LETTERS[i] + 128]) == [0x61 + i]
    ensures KeysOf(Idle(false), [shift, LETTERS[i]]) == [0x41 + i]
    ensures KeysOf(Idle(false), [0x3A, 0xBA]) == [] && ModeOver(Idle(false), [0x3A, 0xBA]) == Idle(true)
    ensures ModeOver(Idle(true), [0x3A, 0xBA]) == Idle(false)
    ensures KeysOf(Idle(true), [LETTERS[i], LETTERS[i] + 128]) == [0x41 + i]
    ensures KeysOf(Idle(true), [shift, LETTERS[i]]) == [0x61 + i]
    ensures forall caps :: ModeOver(Idle(caps), [shift, shift + 128]) == Idle(caps)
  {
    hide KeysOf, ModeOver, MapLo, MapHi, Typed, ModeAfter;
    var sc := LETTERS[i];
    LetterKeys(i);
    OneLetter(sc, i, shift);
    forall caps ensures ModeOver(Idle(caps), [shift, shift + 128]) == Idle(caps) {
      KeysTwo(Idle(caps), shift, shift + 128);
    }
    KeysTwo(Idle(false), sc, sc + 128);
    KeysTwo(Idle(true), sc, sc + 128);
    KeysTwo(Idle(false), shift, sc);
    KeysTwo(Idle(true), shift, sc);
    KeysTwo(Idle(false), 0x3A, 0xBA);
    KeysTwo(Idle(true), 0x3A, 0xBA);
  }

  // -------------------------------------------------------------- the ring

  /** A byte in the controller's output buffer; aux bytes are the mouse's. */
  datatype Scan = Scan(code: byte, aux: bool)

  /** What happens to the ring, in order: bytes read from the data port, and pops. */
  datatype Event = ReadIn(scan: Scan) | PopOut

  /** What the ring holds after a history. A byte read is lost if it is the mouse's or if the
      ring holds 255 already. */
  function RingAfter(h: seq<Event>): seq<byte> {
    if h == [] then []
    else
      var ring := RingAfter(h[..|h| - 1]);
      match h[|h| - 1]
      case ReadIn(s) => if s.aux || |ring| >= BUFSZ - 1 then ring else ring + [s.code]
      case PopOut => if ring == [] then [] else ring[1..]
  }

  function PoppedBy(h: seq<Event>): seq<byte> {
    if h == [] then []
    else
      var ring := RingAfter(h[..|h| - 1]);
      PoppedBy(h[..|h| - 1]) + if h[|h| - 1].PopOut? && ring != [] then [ring[0]] else []
  }

  function ReadBy(h: seq<Event>): seq<Scan> {
    if h == [] then [] else ReadBy(h[..|h| - 1]) + if h[|h| - 1].ReadIn? then [h[|h| - 1].scan] else []
  }

  /** The keyboard's own bytes, minus those read while the ring held 255. */
  function KeptBy(h: seq<Event>): seq<byte> {
    if h == [] then []
    else
      KeptBy(h[..|h| - 1])
      + match h[|h| - 1]
        case ReadIn(s) => if s.aux || |RingAfter(h[..|h| - 1])| >= BUFSZ - 1 then [] else [s.code]
        case PopOut => []
  }

  /** In every history, what was popped and what is buffered are the bytes kept. */
  lemma {:induction false} PoppedThenBuffered(h: seq<Event>)
    ensures PoppedBy(h) + RingAfter(h) == KeptBy(h)
    ensures |RingAfter(h)| < BUFSZ
  {
    if h != [] {
      var front := h[..|h| - 1];
      PoppedThenBuffered(front);
      var ring := RingAfter(front);
      if h[|h| - 1].PopOut? && ring != [] {
        assert ring == [ring[0]] + ring[1..];
      }
    }
  }

  /** A history only goes on with reads. */
  ghost predicate OnlyReads(h: seq<Event>, h': seq<Event>) {
    h <= h' && forall i :: |h| <= i < |h'| ==> h'[i].ReadIn?
  }

  lemma {:induction false} ReadsPopNothing(h: seq<Event>, h': seq<Event>)
    requires OnlyReads(h, h')
    ensures PoppedBy(h') == PoppedBy(h)
    decreases |h'|
  {
    if |h'| > |h| {
      var front := h'[..|h'| - 1];
      assert h'[..|h|] == h && front[..|h|] == h;
      ReadsPopNothing(h, front);
    } else {
      assert h' == h;
    }
  }

  lemma ReadOne(h: seq<Event>, s: Scan)
    ensures var h' := h + [ReadIn(s)];
            && PoppedBy(h') == PoppedBy(h) && ReadBy(h') == ReadBy(h) + [s] && OnlyReads(h, h')
            && RingAfter(h') == if s.aux || |RingAfter(h)| >= BUFSZ - 1 then RingAfter(h) else RingAfter(h) + [s.code]
  {
    assert (h + [ReadIn(s)])[..|h|] == h;
  }

  lemma PopOne(h: seq<Event>)
    requires RingAfter(h) != []
    ensures var h' := h + [PopOut];
            && PoppedBy(h') == PoppedBy(h) + [RingAfter(h)[0]] && ReadBy(h') == ReadBy(h)
            && RingAfter(h') == RingAfter(h)[1..]
  {
    assert (h + [PopOut])[..|h|] == h;
  }

  /** The keyboard's own bytes of a stream. */
  function OwnBytes(stream: seq<Scan>): seq<byte> {
    if stream == [] then []
    else OwnBytes(stream[..|stream| - 1]) + if stream[|stream| - 1].aux then [] else [stream[|stream| - 1].code]
  }

  lemma OwnMore(stream: seq<Scan>, s: Scan)
    ensures OwnBytes(stream + [s]) == OwnBytes(stream) + if s.aux then [] else [s.code]
  {
    assert (stream + [s])[..|stream|] == stream;
  }

  lemma ReadLast(h: seq<Event>)
    requires h != []
    ensures var front, e := h[..|h| - 1], h[|h| - 1];
            && ReadBy(h) == ReadBy(front) + (if e.ReadIn? then [e.scan] else [])
            && OwnBytes(ReadBy(h)) == OwnBytes(ReadBy(front)) + if e.ReadIn? && !e.scan.aux then [e.scan.code] else []
  {
    var front, e := h[..|h| - 1], h[|h| - 1];
    if e.ReadIn? {
      OwnMore(ReadBy(front), e.scan);
    } else {
      assert ReadBy(h) == ReadBy(front);
    }
  }

  /** Nothing of the keyboard's is lost in a history in which the ring never holds 255... */
  lemma {:induction false} RoomyWhole(h: seq<Event>)
    requires forall i :: 0 <= i < |h| ==> |RingAfter(h[..i])| < BUFSZ - 1
    ensures KeptBy(h) == OwnBytes(ReadBy(h))
  {
    if h != [] {
      var front := h[..|h| - 1];
      forall i | 0 <= i < |front| ensures |RingAfter(front[..i])| < BUFSZ - 1 { assert front[..i] == h[..i]; }
      RoomyWhole(front);
      ReadLast(h);
    }
  }

  /** ... which is so, whatever the pops, when fewer than 256 bytes are read. */
  lemma {:induction false} ShortStreamWhole(h: seq<Event>)
    requires |ReadBy(h)| < BUFSZ
    ensures KeptBy(h) == OwnBytes(ReadBy(h)) && |KeptBy(h)| <= |ReadBy(h)|
  {
    if h != [] {
      var front := h[..|h| - 1];
      ShortStreamWhole(front);
      PoppedThenBuffered(front);
      ReadLast(h);
    }
  }

  /** The ring's content. */
  function RingOf(ring: seq<byte>, rd: nat, wr: nat): (s: seq<byte>)
    requires |ring| == BUFSZ && rd < BUFSZ && wr < BUFSZ
    ensures |s| == (wr + BUFSZ - rd) % BUFSZ
  {
    if rd <= wr then ring[rd..wr] else ring[rd..] + ring[..wr]
  }

  /** A byte fits exactly while the ring holds fewer than 255. */
  lemma RingPut(ring: seq<byte>, rd: nat, wr: nat, sc: byte)
    requires |ring| == BUFSZ && rd < BUFSZ && wr < BUFSZ
    ensures (wr + 1) % BUFSZ != rd <==> |RingOf(ring, rd, wr)| < BUFSZ - 1
    ensures (wr + 1) % BUFSZ != rd ==>
              RingOf(ring[wr := sc], rd, (wr + 1) % BUFSZ) == RingOf(ring, rd, wr) + [sc]
  {
    assert (wr + 1) % BUFSZ == if wr == BUFSZ - 1 then 0 else wr + 1;
  }

  lemma RingTake(ring: seq<byte>, rd: nat, wr: nat)
    requires |ring| == BUFSZ && rd < BUFSZ && wr < BUFSZ
    ensures rd == wr <==> RingOf(ring, rd, wr) == []
    ensures rd != wr ==> RingOf(ring, rd, wr) == [ring[rd]] + RingOf(ring, (rd + 1) % BUFSZ, wr)
  {
    var next := if rd == BUFSZ - 1 then 0 else rd + 1;
    assert (rd + 1) % BUFSZ == next;
    if rd < wr {
      assert ring[rd..wr] == [ring[rd]] + ring[rd + 1..wr];
    } else if wr < rd {
      assert ring[rd..] == [ring[rd]] + ring[rd + 1..];
      assert ring[rd..] + ring[..wr] == [ring[rd]] + (ring[rd + 1..] + ring[..wr]);
      if next == 0 { assert ring[rd + 1..] + ring[..wr] == ring[0..wr]; }
    }
  }

  lemma ArriveKeeps(waiting: seq<Scan>, coming: seq<Scan>, n: nat)
    requires n <= |coming|
    ensures (waiting + coming[..n]) + coming[n..] == waiting + coming
    ensures forall s: seq<Scan> :: s + (waiting + coming[..n]) + coming[n..] == s + waiting + coming
  {
    forall s: seq<Scan> ensures s + (waiting + coming[..n]) + coming[n..] == s + waiting + coming {
      assert s + (waiting + coming[..n]) + coming[n..] == s + ((waiting + coming[..n]) + coming[n..]);
      assert s + waiting + coming == s + (waiting + coming);
    }
  }

  class Keyboard {
    const buf: array<byte>
    var rd: nat
    var wr: nat
    var shiftL: bool
    var shiftR: bool
    var caps: bool
    var ext: bool
    /** The controller: absent, or with bytes waiting and more to come at times it chooses. */
    const present: bool
    var waiting: seq<Scan>
    var coming: seq<Scan>
    /** What happened so far. */
    ghost var stream: seq<Scan>
    ghost var hist: seq<Event>
    ghost var popped: seq<byte>
    /** The byte popped but not decoded yet, if any. */
    ghost var hand: seq<byte>
    ghost var keys: seq<int>

    ghost function Buffered(): seq<byte>
      reads this`rd, this`wr, buf
      requires buf.Length == BUFSZ && rd < BUFSZ && wr < BUFSZ
    {
      RingOf(buf[..], rd, wr)
    }

    /** The bytes in the ring, oldest first. */
    method Contents() returns (s: seq<byte>)
      requires Valid()
      ensures s == Buffered()
    {
      s := if rd <= wr then buf[rd..wr] else buf[rd..] + buf[..wr];
    }

    /** How many bytes are still to be popped, at most. */
    ghost function Left(): nat
      reads this`rd, this`wr, this`waiting, this`coming
    {
      |waiting| + |coming| + (wr + BUFSZ - rd) % BUFSZ
    }

    ghost function Now(): Mode
      reads this`shiftL, this`shiftR, this`caps, this`ext
    {
      Mode(shiftL, shiftR, caps, ext)
    }

    /** Every byte of the stream is read, waiting or to come, in order and once; the ring, the
        bytes popped and the one in hand are what the history makes them; and the keys emitted
        are those the bytes decoded type. */
    ghost predicate Valid()
      reads this, buf
    {
      && buf.Length == BUFSZ && rd < BUFSZ && wr < BUFSZ
      && stream == ReadBy(hist) + waiting + coming
      && Buffered() == RingAfter(hist) && popped + hand == PoppedBy(hist)
      && Now() == ModeOver(Idle(false), popped)
      && keys == KeysOf(Idle(false), popped)
    }

    constructor (present: bool, stream: seq<Scan>)
      ensures Valid() && this.stream == stream && hist == [] && hand == [] && keys == [] && fresh(buf)
    {
      this.present := present;
      buf := new byte[BUFSZ](_ => 0);
      rd, wr, shiftL, shiftR, caps, ext := 0, 0, false, false, false, false;
      waiting, coming, this.stream, hist, popped, hand, keys := [], stream, stream, [], [], [], [];
    }

    /** Some more bytes reach the controller's buffer. */
    method Arrive()
      requires Valid()
      modifies this`waiting, this`coming
      ensures Valid() && Left() == old(Left())
    {
      var n: int := *;
      if 0 <= n <= |coming| {
        ArriveKeeps(waiting, coming, n);
        waiting, coming := waiting + coming[..n], coming[n..];
      }
    }

    /** The status port: bit 0 says a byte waits, bit 5 that it is the mouse's; the other
        bits are anything, and a missing controller reads as all ones. */
    method Status() returns (st: bv8)
      ensures present && st != 0xFF ==> (st & 1 != 0 <==> waiting != [])
      ensures st != 0xFF && waiting != [] ==> (st & 0x20 != 0 <==> waiting[0].aux)
      ensures !present ==> st == 0xFF
      ensures st == 0xFF ==> !present || (waiting != [] && waiting[0].aux)
    {
      if !present { return 0xFF; }
      var noise: bv8 := *;
      st := noise & 0xDE;
      if waiting != [] {
        st := st | 1;
        if waiting[0].aux { st := st | 0x20; }
      }
    }

    /** kbd_poll: at most 16 bytes from the controller into the ring. It stops earlier only
        when nothing waits or the status reads all ones, which no keyboard byte can cause. */
    method Poll() returns (ghost silent: bool)
      requires Valid()
      modifies this`waiting, this`coming, this`hist, this`wr, buf
      ensures Valid() && Left() <= old(Left())
      ensures OnlyReads(old(hist), hist) && |hist| <= |old(hist)| + 16
      ensures |hist| == |old(hist)| + 16 || waiting == [] || silent
      ensures silent ==> !present || (waiting != [] && waiting[0].aux)
    {
      silent := false;
      for i := 0 to 16
        invariant Valid() && OnlyReads(old(hist), hist) && |hist| == |old(hist)| + i
        invariant Left() <= old(Left())
      {
        Arrive();
        var st := Status();
        if st == 0xFF || st & 1 == 0 {
          silent := st == 0xFF;
          return;
        }
        Take(st & 0x20 != 0);
      }
    }

    method Take(aux: bool)
      requires Valid() && waiting != [] && aux == waiting[0].aux
      modifies this`waiting, this`hist, this`wr, buf
      ensures Valid() && Left() <= old(Left()) && hist == old(hist) + [ReadIn(old(waiting)[0])]
    {
      hide RingOf, RingAfter, PoppedBy, ReadBy, ModeOver, KeysOf;
      ghost var ring := buf[..];
      ReadOne(hist, waiting[0]);
      var sc := waiting[0].code;
      RingPut(ring, rd, wr, sc);
      waiting, hist := waiting[1..], hist + [ReadIn(waiting[0])];
      if !aux {
        var n := (wr + 1) % BUFSZ;
        if n != rd {
          buf[wr] := sc;
          assert buf[..] == ring[wr := sc];
          wr := n;
        }
      }
    }

    /** The interrupt. */
    method Irq()
      requires Valid()
      modifies this`waiting, this`coming, this`hist, this`wr, buf
      ensures Valid() && Left() <= old(Left()) && OnlyReads(old(hist), hist)
    {
      ghost var silent := Poll();
    }

    /** Any number of interrupts, while they are enabled. */
    method Interrupts()
      requires Valid()
      modifies this`waiting, this`coming, this`hist, this`wr, buf
      ensures Valid() && Left() <= old(Left()) && OnlyReads(old(hist), hist)
    {
      hide Valid, Left;
      var n: int := *;
      for i := 0 to if n > 0 then n else 0
        invariant Valid() && Left() <= old(Left()) && OnlyReads(old(hist), hist)
      {
        Irq();
      }
    }

    /** pop */
    method Pop() returns (sc: Option<byte>)
      requires Valid() && hand == []
      modifies this`rd, this`hand, this`hist
      ensures Valid() && hand == if sc.Some? then [sc.value] else []
      ensures sc.None? ==> hist == old(hist) && RingAfter(hist) == []
      ensures sc.Some? ==> hist == old(hist) + [PopOut]
      ensures Left() == old(Left()) - |hand|
    {
      hide RingOf, RingAfter, PoppedBy, ReadBy, ModeOver, KeysOf;
      RingTake(buf[..], rd, wr);
      if rd == wr { return None; }
      PopOne(hist);
      var v := buf[rd];
      hand, hist := [v], hist + [PopOut];
      rd := (rd + 1) % BUFSZ;
      return Some(v);
    }

    /** decode: -1 is no key. */
    method Decode(sc: byte) returns (k: int)
      modifies this`shiftL, this`shiftR, this`caps, this`ext
      ensures Now() == ModeAfter(old(Now()), sc)
      ensures var key := Typed(old(Now()), sc); k == if key.Some? then key.value else -1
    {
      hide MapBoth;
      if sc == 0xE0 { ext := true; return -1; }
      if ext {
        ext := false;
        if sc >= 0x80 { return -1; }
        match sc
        case 0x48 => return KEY_UP;
        case 0x50 => return KEY_DOWN;
        case 0x4B => return KEY_LEFT;
        case 0x4D => return KEY_RIGHT;
        case 0x53 => return KEY_DEL;
        case 0x47 => return KEY_HOME;
        case 0x4F => return KEY_END;
        case 0x1C => return 10;
        case _ => return -1;
      }
      if sc >= 0x80 {
        var mk := sc - 0x80;
        if mk == 0x2A { shiftL := false; }
        if mk == 0x36 { shiftR := false; }
        return -1;
      }
      if sc == 0x2A { shiftL := true; return -1; }
      if sc == 0x36 { shiftR := true; return -1; }
      if sc == 0x3A { caps := !caps; return -1; }
      var shift := shiftL || shiftR;
      var c := if shift then MapHi(sc) else MapLo(sc);
      if c == 0 { return -1; }
      if caps && Lower(c) && !shift { c := c - 32; }
      else if caps && Upper(c) && shift { c := c + 32; }
      k := c;
    }

    /** The byte in hand is decoded. */
    method DecodeHand(sc: byte) returns (k: int)
      requires Valid() && hand == [sc]
      modifies this`shiftL, this`shiftR, this`caps, this`ext, this`popped, this`hand, this`keys
      ensures Valid() && hand == [] && popped == old(popped) + [sc]
      ensures k >= 0 ==> keys == old(keys) + [k]
      ensures k < 0 ==> keys == old(keys)
    {
      hide RingOf, RingAfter, PoppedBy, ReadBy, Typed;
      TypedKey(Now(), sc);
      ghost var key := Typed(Now(), sc);
      assert (popped + [sc])[..|popped|] == popped;
      k := Decode(sc);
      popped, hand := popped + [sc], [];
      keys := keys + KeyList(key);
    }

    /** kbd_trygetc: a waiting USB key first; otherwise scancodes until one types a key. It
        ends because every pass uses up a byte of the stream, and without a key only when it
        has found the ring empty. */
    method TryGetc(usb: Option<int>) returns (key: Option<int>)
      requires Valid() && hand == []
      modifies this`waiting, this`coming, this`hist, this`rd, this`wr, buf
      modifies this`shiftL, this`shiftR, this`caps, this`ext, this`popped, this`hand, this`keys
      ensures Valid() && hand == [] && Step(GetKey(usb), old(hist), hist, key)
      ensures usb.Some? ==> keys == old(keys)
      ensures usb.None? ==> keys == old(keys) + KeyList(key)
    {
      hide Valid, Left, RingAfter, PoppedBy, ReadBy, ModeOver, KeysOf;
      ghost var h0, k0 := hist, keys;
      Decoded();
      Interrupts();
      if usb.Some? {
        ReadsPopNothing(h0, hist);
        return usb;
      }
      while true
        invariant Valid() && hand == [] && h0 <= hist && keys == k0
        decreases Left()
      {
        ghost var silent := Poll();
        var sc := Pop();
        ghost var seen := hist;
        Interrupts();
        if sc.None? {
          Decoded();
          assert hist[..|seen|] == seen;
          assert Dry(hist, |seen|);
          return None;
        }
        var k := DecodeHand(sc.value);
        Interrupts();
        if k >= 0 {
          Decoded();
          return Some(k);
        }
      }
    }

    /** With nothing in hand, the keys are those of everything popped. */
    lemma Decoded()
      requires Valid() && hand == []
      ensures keys == KeysOf(Idle(false), PoppedBy(hist))
    {
      assert popped + hand == popped;
    }
  }

  /** What a program does with the keyboard: wait for interrupts, or ask for a key. */
  datatype Call = Interrupt | GetKey(usb: Option<int>)

  /** At position m of the history the ring was empty, and nothing was popped since. */
  ghost predicate Dry(h: seq<Event>, m: nat) {
    m <= |h| && RingAfter(h[..m]) == [] && OnlyReads(h[..m], h)
  }

  /** What one call does: an interrupt, or a call answered by USB, reads bytes at most;
      another call pops until a key is typed, which it returns, or until it has seen the ring
      empty. */
  ghost predicate Step(call: Call, h: seq<Event>, h': seq<Event>, key: Option<int>) {
    match call
    case Interrupt => OnlyReads(h, h') && key == None
    case GetKey(Some(k)) => OnlyReads(h, h') && key == Some(k)
    case GetKey(None) =>
      && h <= h'
      && KeysOf(Idle(false), PoppedBy(h')) == KeysOf(Idle(false), PoppedBy(h)) + KeyList(key)
      && (key.None? ==> exists m :: |h| <= m && Dry(h', m))
  }

  /** One history accounts for everything seen: call by call for the keys handed out, and in
      the end for what is left in the ring and what was never read. */
  ghost predicate Explains(stream: seq<Scan>, calls: seq<Call>, got: seq<Option<int>>, ring: seq<byte>,
                           unread: seq<Scan>) {
    exists hs: seq<seq<Event>> ::
      && |hs| == |calls| + 1 == |got| + 1 && hs[0] == []
      && (forall i :: 0 <= i < |calls| ==> Step(calls[i], hs[i], hs[i + 1], got[i]))
      && stream == ReadBy(hs[|calls|]) + unread && ring == RingAfter(hs[|calls|])
  }

  /** The keys handed out from the PS/2 side. */
  function Handed(calls: seq<Call>, got: seq<Option<int>>): seq<int>
    requires |got| == |calls|
  {
    if calls == [] then []
    else
      var n := |calls| - 1;
      Handed(calls[..n], got[..n]) + if calls[n] == GetKey(None) then KeyList(got[n]) else []
  }

  /** All of them together are the fold of the decoder over the bytes popped. */
  lemma {:induction false} HandedAreTyped(calls: seq<Call>, got: seq<Option<int>>, hs: seq<seq<Event>>)
    requires |hs| == |calls| + 1 == |got| + 1 && hs[0] == []
    requires forall i :: 0 <= i < |calls| ==> Step(calls[i], hs[i], hs[i + 1], got[i])
    ensures Handed(calls, got) == KeysOf(Idle(false), PoppedBy(hs[|calls|]))
  {
    if calls != [] {
      var n := |calls| - 1;
      HandedAreTyped(calls[..n], got[..n], hs[..|calls|]);
      assert Step(calls[n], hs[n], hs[n + 1], got[n]);
      if calls[n] != GetKey(None) { ReadsPopNothing(hs[n], hs[n + 1]); }
    }
  }

  /** From power-on, whatever the calls and however the controller times its bytes. */
  method Session(present: bool, stream: seq<Scan>, calls: seq<Call>)
    returns (got: seq<Option<int>>, ring: seq<byte>, unread: seq<Scan>)
    ensures Explains(stream, calls, got, ring, unread)
  {
    hide RingOf, RingAfter, PoppedBy, ReadBy, ModeOver, KeysOf, Step;
    var k := new Keyboard(present, stream);
    got := [];
    ghost var hs: seq<seq<Event>> := [[]];
    for i := 0 to |calls|
      invariant k.Valid() && k.hand == [] && k.stream == stream && fresh(k) && fresh(k.buf)
      invariant |hs| == i + 1 == |got| + 1 && hs[0] == [] && hs[i] == k.hist
      invariant forall j :: 0 <= j < i ==> Step(calls[j], hs[j], hs[j + 1], got[j])
    {
      var key: Option<int> := None;
      ghost var h := k.hist;
      if calls[i].Interrupt? {
        k.Irq();
        StepInterrupt(h, k.hist);
      } else {
        key := k.TryGetc(calls[i].usb);
      }
      got, hs := got + [key], hs + [k.hist];
    }
    ring := k.Contents();
    unread := k.waiting + k.coming;
    assert stream == ReadBy(hs[|calls|]) + unread;
  }

  lemma StepInterrupt(h: seq<Event>, h': seq<Event>)
    requires OnlyReads(h, h')
    ensures Step(Interrupt, h, h', None)
  {
  }

  lemma TypedKey(m: Mode, sc: byte)
    ensures Typed(m, sc).Some? ==> Typed(m, sc).value >= 0
  {
  }
}
