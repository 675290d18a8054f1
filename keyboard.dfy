/** The scan-code decoder of drivers/keyboard.c: the E0 prefix, the
    modifier and lock flags, the keymap column choice, the keypad
    translation and the forwarding of decoded keys. The keymap and the key
    codes of keyboard.h (which is not part of this model) are parameters. */
module Keyboard {
  import opened Machine

  /** A uint32_t key code. */
  type Key = Word32
  /** A flag or mask bit pattern of keyboard.h, combined with key codes by
      the bitwise operators. */
  type Bits = bv32

  /** The key codes and flag bits of keyboard.h. */
  datatype Codes = Codes(
    flagBreak: Bits, flagExt: Bits, maskRaw: Bits,
    enter: Key, backspace: Key, tab: Key,
    shiftL: Key, shiftR: Key, ctrlL: Key, ctrlR: Key, altL: Key, altR: Key,
    capsLock: Key, numLock: Key, scrollLock: Key,
    padSlash: Key, padStar: Key, padMinus: Key, padPlus: Key, padEnter: Key,
    pad0: Key, pad9: Key, padDot: Key,
    padHome: Key, padEnd: Key, padPageUp: Key, padPageDown: Key, padIns: Key,
    padUp: Key, padDown: Key, padLeft: Key, padRight: Key,
    home: Key, end: Key, pageUp: Key, pageDown: Key, insert: Key,
    up: Key, down: Key, left: Key, right: Key, delete: Key,
    flagShiftL: Bits, flagShiftR: Bits, flagCtrlL: Bits, flagCtrlR: Bits,
    flagAltL: Bits, flagAltR: Bits, flagPad: Bits)

  /** One keymap row: the plain, shifted and E0-prefixed keys. */
  datatype Row = Row(plain: Key, shifted: Key, extended: Key)

  function Cell(r: Row, column: nat): Key
  {
    if column == 0 then r.plain else if column == 1 then r.shifted else r.extended
  }

  /** The keymap has a row for every 7-bit scan code. */
  const ROWS: nat := 0x80
  const CHAR_A: Key := 0x61
  const CHAR_Z: Key := 0x7A
  /** The LED command and the acknowledgement of the keyboard controller. */
  const LED_CODE: Byte := 0xED

  /** A make code: FLAG_BREAK is clear in the scan code. */
  predicate IsMake(c: Codes, sc: Byte)
  {
    (sc as Bits) & c.flagBreak == 0
  }

  /** The decoder's static state. */
  datatype Flags = Flags(
    e0: bool, shiftL: bool, shiftR: bool, ctrlL: bool, ctrlR: bool, altL: bool, altR: bool,
    capsLock: bool, numLock: bool, scrollLock: bool, column: nat)

  /** The LED status byte set_leds sends: caps lock, num lock, scroll
      lock in bits 2, 1 and 0. */
  function LedStatus(f: Flags): Byte
  {
    (if f.capsLock then 4 else 0) + (if f.numLock then 2 else 0) + (if f.scrollLock then 1 else 0)
  }

  /** The column keyboard_read reads: 2 after an E0 prefix, otherwise 1
      exactly when shift is held XOR caps lock is on for a letter key. */
  function ColumnOf(f: Flags, row: Row): nat
  {
    var caps := f.shiftL || f.shiftR;
    var caps := if f.capsLock && CHAR_A <= row.plain <= CHAR_Z then !caps else caps;
    if f.e0 then 2 else if caps then 1 else 0
  }

  /** The property of the column choice, stated the other way round. */
  lemma ColumnChoice(f: Flags, row: Row)
    ensures ColumnOf(f, row) == 2 <==> f.e0
    ensures ColumnOf(f, row) == 1 <==>
              !f.e0 && ((f.shiftL || f.shiftR) != (f.capsLock && CHAR_A <= row.plain <= CHAR_Z))
  {
  }

  /** The modifier or lock key `key` is, tested in the order of the
      source's switch. */
  datatype Modifier = ShiftL | ShiftR | CtrlL | CtrlR | AltL | AltR | CapsLock | NumLock | ScrollLock | NoModifier

  function ModifierOf(c: Codes, key: Key): Modifier
  {
    if key == c.shiftL then ShiftL
    else if key == c.shiftR then ShiftR
    else if key == c.ctrlL then CtrlL
    else if key == c.ctrlR then CtrlR
    else if key == c.altL then AltL
    else if key == c.altR then AltR
    else if key == c.capsLock then CapsLock
    else if key == c.numLock then NumLock
    else if key == c.scrollLock then ScrollLock
    else NoModifier
  }

  /** The modifier and lock updates for `key`: each modifier follows
      make for its own key; each lock toggles on make only. */
  function Track(c: Codes, f: Flags, key: Key, make: bool): (g: Flags)
  {
    var m := ModifierOf(c, key);
    Flags(f.e0,
      if m == ShiftL then make else f.shiftL,
      if m == ShiftR then make else f.shiftR,
      if m == CtrlL then make else f.ctrlL,
      if m == CtrlR then make else f.ctrlR,
      if m == AltL then make else f.altL,
      if m == AltR then make else f.altR,
      f.capsLock != (make && m == CapsLock),
      f.numLock != (make && m == NumLock),
      f.scrollLock != (make && m == ScrollLock),
      f.column)
  }

  /** Whether a lock key was pressed, so that set_leds runs. */
  predicate LockPressed(c: Codes, key: Key, make: bool)
  {
    make && (key == c.capsLock || key == c.numLock || key == c.scrollLock)
  }

  /** The keypad translation of a pressed key in the range PAD_SLASH ..
      PAD_9, with `pageDownTo` the key that PAD_PAGEDOWN becomes. */
  function PadKeyWith(c: Codes, key: Key, numLock: bool, pageDownTo: Key): Key
  {
    if key == c.padSlash then 0x2F
    else if key == c.padStar then 0x2A
    else if key == c.padMinus then 0x2D
    else if key == c.padPlus then 0x2B
    else if key == c.padEnter then c.enter
    else if numLock && c.pad0 <= key <= c.pad9 then (key - c.pad0 + 0x30) % U32
    else if numLock && key == c.padDot then 0x2E
    else if key == c.padHome then c.home
    else if key == c.padEnd then c.end
    else if key == c.padPageUp then c.pageUp
    else if key == c.padPageDown then pageDownTo
    else if key == c.padIns then c.insert
    else if key == c.padUp then c.up
    else if key == c.padDown then c.down
    else if key == c.padLeft then c.left
    else if key == c.padRight then c.right
    else if key == c.padDot then c.delete
    else key
  }

  /** As the source writes it: its PAD_PAGEDOWN case assigns PAD_PAGEDOWN. */
  function PadKeyAsWritten(c: Codes, key: Key, numLock: bool): Key
  {
    PadKeyWith(c, key, numLock, c.padPageDown)
  }

  /** As evidently intended: PAD_PAGEDOWN becomes PAGEDOWN like the other
      navigation keys become theirs. */
  function PadKey(c: Codes, key: Key, numLock: bool): Key
  {
    PadKeyWith(c, key, numLock, c.pageDown)
  }

  /** With num lock on, the keypad digits give '0'..'9' and the keypad dot
      gives '.', unless the key is one of the operator keys. */
  lemma PadDigits(c: Codes, key: Key)
    requires key != c.padSlash && key != c.padStar && key != c.padMinus
    requires key != c.padPlus && key != c.padEnter
    ensures c.pad0 <= key <= c.pad9 ==> PadKey(c, key, true) == (key - c.pad0 + 0x30) % U32
    ensures !(c.pad0 <= key <= c.pad9) && key == c.padDot ==> PadKey(c, key, true) == 0x2E
  {
  }

  /** The modifier flags held in `f`, and FLAG_PAD for a keypad key. */
  function FlagBits(c: Codes, f: Flags, pad: bool): Bits
  {
    (if f.shiftL then c.flagShiftL else 0) | (if f.shiftR then c.flagShiftR else 0)
    | (if f.ctrlL then c.flagCtrlL else 0) | (if f.ctrlR then c.flagCtrlR else 0)
    | (if f.altL then c.flagAltL else 0) | (if f.altR then c.flagAltR else 0)
    | (if pad then c.flagPad else 0)
  }

  /** The key after keypad translation and with the modifier and pad
      flags ORed in (the source ORs them in one at a time, which gives the
      same bits). */
  function Decorate(c: Codes, f: Flags, key: Key, pageDownTo: Key): Key
  {
    var pad := c.padSlash <= key <= c.pad9;
    var k := if pad then PadKeyWith(c, key, f.numLock, pageDownTo) else key;
    ((k as Bits) | FlagBits(c, f, pad)) as int
  }

  /** in_process: a key without FLAG_EXT forwards its low byte; extended
      ENTER, BACKSPACE and TAB become '\n', '\b' and '\t'; any other
      extended key is dropped. */
  function InProcess(c: Codes, key: Key): (out: seq<Byte>)
    ensures |out| <= 1
    ensures (key as Bits) & c.flagExt == 0 ==> out == [key % 0x100]
  {
    if (key as Bits) & c.flagExt == 0 then [key % 0x100]
    else
      var raw := ((key as Bits) & c.maskRaw) as int;
      if raw == c.enter then [0x0A]
      else if raw == c.backspace then [0x08]
      else if raw == c.tab then [0x09]
      else []
  }

  /** The outcome of one scan code: the new flags, the decoded bytes and
      the bytes sent to the keyboard data port. */
  datatype Outcome = Outcome(flags: Flags, out: seq<Byte>, port: seq<Byte>)

  /** Whether the scan code is one of the prefixes E0 and E1, which
      keyboard_read consumes without decoding. */
  predicate IsPrefix(sc: Byte)
  {
    sc == 0xE0 || sc == 0xE1
  }

  /** The column keyboard_read reads for a non-prefix scan code. */
  function ColumnFor(km: seq<Row>, f: Flags, sc: Byte): nat
    requires |km| == ROWS
  {
    ColumnOf(f, km[sc % 0x80])
  }

  /** The keymap entry keyboard_read reads for a non-prefix scan code. */
  function KeyFor(km: seq<Row>, f: Flags, sc: Byte): Key
    requires |km| == ROWS
  {
    Cell(km[sc % 0x80], ColumnFor(km, f, sc))
  }

  /** The decoder's state after one scan code. */
  function FlagsAfter(c: Codes, km: seq<Row>, f: Flags, sc: Byte): Flags
    requires |km| == ROWS
  {
    if sc == 0xE1 then f
    else if sc == 0xE0 then f.(e0 := true)
    else Track(c, f.(e0 := false, column := ColumnFor(km, f, sc)), KeyFor(km, f, sc), IsMake(c, sc))
  }

  /** The bytes set_leds sends after one scan code. */
  function PortAfter(c: Codes, km: seq<Row>, f: Flags, sc: Byte): seq<Byte>
    requires |km| == ROWS
  {
    if !IsPrefix(sc) && LockPressed(c, KeyFor(km, f, sc), IsMake(c, sc))
    then [LED_CODE, LedStatus(FlagsAfter(c, km, f, sc))]
    else []
  }

  /** The bytes in_process forwards after one scan code, with the keypad
      translation given. */
  function OutAfter(c: Codes, km: seq<Row>, f: Flags, sc: Byte, pageDownTo: Key): seq<Byte>
    requires |km| == ROWS
  {
    if !IsPrefix(sc) && IsMake(c, sc)
    then InProcess(c, Decorate(c, FlagsAfter(c, km, f, sc), KeyFor(km, f, sc), pageDownTo))
    else []
  }

  /** keyboard_read on one scan code, with the keypad translation given. */
  function ReadWith(c: Codes, km: seq<Row>, f: Flags, sc: Byte, pageDownTo: Key): Outcome
    requires |km| == ROWS
  {
    Outcome(FlagsAfter(c, km, f, sc), OutAfter(c, km, f, sc, pageDownTo), PortAfter(c, km, f, sc))
  }

  /** keyboard_read as the source writes it. */
  function ReadAsWritten(c: Codes, km: seq<Row>, f: Flags, sc: Byte): Outcome
    requires |km| == ROWS
  {
    ReadWith(c, km, f, sc, c.padPageDown)
  }

  /** keyboard_read with the corrected keypad translation. */
  function Read(c: Codes, km: seq<Row>, f: Flags, sc: Byte): Outcome
    requires |km| == ROWS
  {
    ReadWith(c, km, f, sc, c.pageDown)
  }

  /** With num lock off the source leaves keypad PAGEDOWN untranslated
      where the corrected translation gives PAGEDOWN. */
  lemma PadPageDownAsWritten(c: Codes)
    requires c.padPageDown != c.pageDown
    requires c.padPageDown != c.padSlash && c.padPageDown != c.padStar && c.padPageDown != c.padMinus
    requires c.padPageDown != c.padPlus && c.padPageDown != c.padEnter && c.padPageDown != c.padHome
    requires c.padPageDown != c.padEnd && c.padPageDown != c.padPageUp
    ensures PadKeyAsWritten(c, c.padPageDown, false) == c.padPageDown
    ensures PadKey(c, c.padPageDown, false) == c.pageDown
  {
  }

  /** The corrected translation differs from the source only on keypad
      PAGEDOWN, which it maps to PAGEDOWN. */
  lemma PadKeyAgrees(c: Codes, key: Key, numLock: bool)
    ensures PadKey(c, key, numLock) != PadKeyAsWritten(c, key, numLock) ==>
              key == c.padPageDown && PadKey(c, key, numLock) == c.pageDown
  {
  }

  /** Nothing is decoded on a prefix or a key release. */
  lemma ReleaseEmitsNothing(c: Codes, km: seq<Row>, f: Flags, sc: Byte)
    requires |km| == ROWS && (IsPrefix(sc) || !IsMake(c, sc))
    ensures Read(c, km, f, sc).out == []
  {
  }

  /** A lock toggles only on the make of its own key, a modifier follows
      make and break of its own key, and nothing else changes. */
  lemma TrackFollowsKey(c: Codes, f: Flags, key: Key, make: bool)
    ensures var g := Track(c, f, key, make);
            (g.capsLock != f.capsLock ==> make && key == c.capsLock)
            && (g.numLock != f.numLock ==> make && key == c.numLock && key != c.capsLock)
            && (g.scrollLock != f.scrollLock ==> make && key == c.scrollLock)
            && (key == c.shiftL ==> g.shiftL == make)
            && (key == c.ctrlL && key != c.shiftL && key != c.shiftR ==> g.ctrlL == make)
            && g.e0 == f.e0 && g.column == f.column
  {
  }

  /** The same for a whole non-prefix scan code: the locks and modifiers
      follow the key read from the keymap and its make or break. */
  lemma LocksToggleOnMake(c: Codes, km: seq<Row>, f: Flags, sc: Byte)
    requires |km| == ROWS && !IsPrefix(sc)
    ensures var g := FlagsAfter(c, km, f, sc);
            var key := KeyFor(km, f, sc);
            var make := IsMake(c, sc);
            (g.capsLock != f.capsLock ==> make && key == c.capsLock)
            && (g.numLock != f.numLock ==> make && key == c.numLock && key != c.capsLock)
            && (g.scrollLock != f.scrollLock ==> make && key == c.scrollLock)
            && !g.e0 && g.column == ColumnFor(km, f, sc)
  {
    TrackFollowsKey(c, f.(e0 := false, column := ColumnFor(km, f, sc)), KeyFor(km, f, sc), IsMake(c, sc));
  }

  /** set_leds runs exactly on the make of a lock key and sends the new
      lock state. */
  lemma LedsFollowLocks(c: Codes, km: seq<Row>, f: Flags, sc: Byte)
    requires |km| == ROWS && !IsPrefix(sc)
    ensures PortAfter(c, km, f, sc) != [] <==> LockPressed(c, KeyFor(km, f, sc), IsMake(c, sc))
    ensures PortAfter(c, km, f, sc) != [] ==>
              PortAfter(c, km, f, sc) == [LED_CODE, LedStatus(FlagsAfter(c, km, f, sc))]
  {
  }

  /** The E0 prefix only sets the flag, and the next code reads column 2
      and clears it. */
  lemma PrefixSelectsExtended(c: Codes, km: seq<Row>, f: Flags, sc: Byte)
    requires |km| == ROWS && !IsPrefix(sc)
    ensures var g := FlagsAfter(c, km, f, 0xE0);
            g == f.(e0 := true) && PortAfter(c, km, f, 0xE0) == [] && OutAfter(c, km, f, 0xE0, c.pageDown) == []
            && FlagsAfter(c, km, g, sc).column == 2 && !FlagsAfter(c, km, g, sc).e0
  {
  }

  /** The initial state of init_keyboard: num lock on, every other flag
      off, and E0 and the column as the zero-initialised statics. */
  const INITIAL: Flags := Flags(false, false, false, false, false, false, false, false, true, false, 0)

  /** The keyboard driver: the decoder's statics, the decoded_key FIFO
      and the bytes sent to the data port. */
  class Driver {
    const codes: Codes
    const keymap: seq<Row>
    var flags: Flags
    var decoded: seq<Byte>
    var port: seq<Byte>

    /** init_keyboard: the flags of INITIAL and the LEDs set from them. */
    constructor (c: Codes, km: seq<Row>)
      requires |km| == ROWS
      ensures codes == c && keymap == km && flags == INITIAL && decoded == []
      ensures port == [LED_CODE, 2]
    {
      codes, keymap := c, km;
      flags := INITIAL;
      decoded := [];
      port := [LED_CODE, LedStatus(INITIAL)];
    }

    /** keyboard_handler: one scan code through keyboard_read. */
    method Handle(sc: Byte)
      requires |keymap| == ROWS
      modifies this
      ensures var o := Read(codes, keymap, old(flags), sc);
              flags == o.flags && decoded == old(decoded) + o.out && port == old(port) + o.port
    {
      if sc == 0xE1 {
        return;
      }
      if sc == 0xE0 {
        flags := flags.(e0 := true);
        return;
      }
      var make := IsMake(codes, sc);
      var row := keymap[sc % 0x80];
      var column := 0;
      var caps := flags.shiftL || flags.shiftR;
      if flags.capsLock {
        if CHAR_A <= row.plain <= CHAR_Z {
          caps := !caps;
        }
      }
      if caps {
        column := 1;
      }
      if flags.e0 {
        column := 2;
      }
      ghost var f0 := flags;
      assert column == ColumnFor(keymap, f0, sc);
      var key := Cell(row, column);
      flags := Track(codes, flags.(e0 := false, column := column), key, make);
      assert flags == FlagsAfter(codes, keymap, f0, sc);
      if LockPressed(codes, key, make) {
        port := port + [LED_CODE, LedStatus(flags)];
      }
      if make {
        key := Decorate(codes, flags, key, codes.pageDown);
        decoded := decoded + InProcess(codes, key);
      }
    }
  }
}
