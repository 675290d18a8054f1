/** The 320x200 VGA mode 13h driver of drivers/screen.c: the register
    programming that enters the mode, and the drawing routines over the
    64000-byte linear frame buffer at 0xA0000, one byte per pixel. */
module Screen {
  import opened Machine

  const VGA_WIDTH: int := 320
  const VGA_HEIGHT: int := 200
  const VGA_SIZE: int := 64000

  const SEQ_ADDR: Word16 := 0x3C4
  const SEQ_DATA: Word16 := 0x3C5
  const CRT_ADDR: Word16 := 0x3D4
  const CRT_DATA: Word16 := 0x3D5
  const MISC_WRITE: Word16 := 0x3C2
  const GC_ADDR: Word16 := 0x3CE
  const GC_DATA: Word16 := 0x3CF

  /** The CRTC vertical retrace end register, whose bit 7 write-protects
      CRTC registers 0..7. */
  const CRT_PROTECT: Byte := 0x11

  const SEQ_REGS: seq<Byte> := [0x03, 0x01, 0x0F, 0x00, 0x06]
  const CRT_REGS: seq<Byte> := [
    0x5F, 0x4F, 0x50, 0x82, 0x54, 0x80, 0xBF, 0x1F,
    0x00, 0x41, 0x00, 0x00, 0x00, 0x00, 0x00, 0x00,
    0x9C, 0x8E, 0x8F, 0x28, 0x40, 0x96, 0xB9, 0xA3,
    0xFF]
  const GFX_REGS: seq<Byte> := [0x00, 0x00, 0x00, 0x00, 0x00, 0x40, 0x05, 0x0F]

  // ---------------------------------------------------------------------
  // Register programming
  // ---------------------------------------------------------------------

  /** The index/data pairs that load `regs` into registers 0, 1, ... of
      the controller at `addr`/`data`. */
  function Indexed(addr: Word16, data: Word16, regs: seq<Byte>): seq<PortOut>
    requires |regs| <= U8
  {
    if |regs| == 0 then []
    else Indexed(addr, data, regs[..|regs| - 1]) + [Outb(addr, |regs| - 1), Outb(data, regs[|regs| - 1])]
  }

  lemma {:induction false} IndexedLength(addr: Word16, data: Word16, regs: seq<Byte>)
    requires |regs| <= U8
    ensures |Indexed(addr, data, regs)| == 2 * |regs|
  {
    if |regs| > 0 {
      IndexedLength(addr, data, regs[..|regs| - 1]);
    }
  }

  /** Register k is selected at write 2k and loaded with regs[k] at write
      2k+1. */
  lemma {:induction false} IndexedAt(addr: Word16, data: Word16, regs: seq<Byte>, k: nat)
    requires |regs| <= U8 && k < |regs|
    ensures |Indexed(addr, data, regs)| == 2 * |regs|
    ensures Indexed(addr, data, regs)[2 * k] == Outb(addr, k)
    ensures Indexed(addr, data, regs)[2 * k + 1] == Outb(data, regs[k])
  {
    IndexedLength(addr, data, regs);
    var init := regs[..|regs| - 1];
    IndexedLength(addr, data, init);
    if k < |init| {
      IndexedAt(addr, data, init, k);
      assert init[k] == regs[k];
    }
  }

  /** `misc | 0x01`: the colour-mode bit set. */
  function WithColour(misc: Byte): (r: Byte)
    ensures r % 2 == 1 && r / 2 == misc / 2
  {
    if misc % 2 == 1 then misc else misc + 1
  }

  /** `cr11 & 0x7F`: the CRTC write protection cleared. */
  function Unprotected(cr11: Byte): (r: Byte)
    ensures r < 0x80 && r == cr11 - (if cr11 >= 0x80 then 0x80 else 0)
  {
    cr11 % 0x80
  }

  /** The port writes of vga_set_mode_13h, given the values its two reads
      return. */
  function Mode13hWrites(misc: Byte, cr11: Byte): seq<PortOut>
  {
    [Outb(MISC_WRITE, WithColour(misc)), Outb(CRT_ADDR, CRT_PROTECT), Outb(CRT_DATA, Unprotected(cr11))]
    + Indexed(SEQ_ADDR, SEQ_DATA, SEQ_REGS)
    + Indexed(CRT_ADDR, CRT_DATA, CRT_REGS)
    + [Outb(CRT_ADDR, CRT_PROTECT), Outb(CRT_DATA, cr11)]
    + Indexed(GC_ADDR, GC_DATA, GFX_REGS)
  }

  /** The CRTC registers are written between clearing the protection bit
      and restoring the register's original value, and the graphics
      controller comes last. */
  lemma Mode13hOrder(misc: Byte, cr11: Byte)
    ensures var w := Mode13hWrites(misc, cr11);
            |w| == 3 + 10 + 50 + 2 + 16
            && w[1] == Outb(CRT_ADDR, CRT_PROTECT) && w[2] == Outb(CRT_DATA, Unprotected(cr11))
            && w[13] == Outb(CRT_ADDR, 0) && w[13 + 2 * 24 + 1] == Outb(CRT_DATA, 0xFF)
            && w[63] == Outb(CRT_ADDR, CRT_PROTECT) && w[64] == Outb(CRT_DATA, cr11)
            && w[65] == Outb(GC_ADDR, 0) && w[80] == Outb(GC_DATA, 0x0F)
  {
    IndexedLength(SEQ_ADDR, SEQ_DATA, SEQ_REGS);
    IndexedAt(CRT_ADDR, CRT_DATA, CRT_REGS, 0);
    IndexedAt(CRT_ADDR, CRT_DATA, CRT_REGS, 24);
    IndexedAt(GC_ADDR, GC_DATA, GFX_REGS, 0);
    IndexedAt(GC_ADDR, GC_DATA, GFX_REGS, 7);
  }

  // ---------------------------------------------------------------------
  // Pixels
  // ---------------------------------------------------------------------

  predicate OnScreen(x: int, y: int)
  {
    0 <= x < VGA_WIDTH && 0 <= y < VGA_HEIGHT
  }

  /** The frame-buffer index of pixel (x, y), row-major. */
  function Offset(x: int, y: int): (i: nat)
    requires OnScreen(x, y)
    ensures i < VGA_SIZE && i % VGA_WIDTH == x && i / VGA_WIDTH == y
  {
    y * VGA_WIDTH + x
  }

  /** Every frame-buffer byte is the pixel of exactly one on-screen
      position. */
  lemma OffsetOnto(i: int)
    requires 0 <= i < VGA_SIZE
    ensures OnScreen(i % VGA_WIDTH, i / VGA_WIDTH) && Offset(i % VGA_WIDTH, i / VGA_WIDTH) == i
  {
  }

  /** Pixel (px, py) lies in the rectangle at (x, y) of the given size. */
  predicate InRect(x: int, y: int, width: int, height: int, px: int, py: int)
  {
    x <= px < x + width && y <= py < y + height
  }

  /** The RGB332 gradient components at (x, y). */
  function Red(x: int): int requires 0 <= x < VGA_WIDTH { (x * 8) / VGA_WIDTH }
  function Green(y: int): int requires 0 <= y < VGA_HEIGHT { (y * 8) / VGA_HEIGHT }
  function Blue(x: int, y: int): int requires OnScreen(x, y) { (x + y) * 4 / (VGA_WIDTH + VGA_HEIGHT) }

  /** `(r << 5) | (g << 2) | b`: the fields do not overlap, so the OR is
      the sum. */
  function GradientColor(x: int, y: int): Byte
    requires OnScreen(x, y)
  {
    GradientFields(x, y);
    Red(x) * 32 + Green(y) * 4 + Blue(x, y)
  }

  /** Red and green take 3 bits and blue 2, so the colour fits in a byte
      and each field can be read back from it. */
  lemma GradientFields(x: int, y: int)
    requires OnScreen(x, y)
    ensures 0 <= Red(x) < 8 && 0 <= Green(y) < 8 && 0 <= Blue(x, y) < 4
    ensures var c := Red(x) * 32 + Green(y) * 4 + Blue(x, y);
            0 <= c < U8 && c / 32 == Red(x) && (c / 4) % 8 == Green(y) && c % 4 == Blue(x, y)
  {
    var r, g, b := Red(x), Green(y), Blue(x, y);
    assert 0 <= r < 8 && 0 <= g < 8 && 0 <= b < 4;
    var c := r * 32 + g * 4 + b;
    assert c / 4 == r * 8 + g;
    assert c / 32 == r;
  }

  /** The VGA frame buffer and the trace of register writes. */
  class Vga {
    const mem: array<Byte>
    var ports: seq<PortOut>

    predicate Valid()
      reads this
    {
      mem.Length == VGA_SIZE
    }

    constructor (m: array<Byte>)
      requires m.Length == VGA_SIZE
      ensures mem == m && ports == [] && Valid()
    {
      mem := m;
      ports := [];
    }

    /** vga_set_mode_13h, with the two register reads given as `misc`
        and `cr11`. */
    method SetMode13h(misc: Byte, cr11: Byte)
      modifies this
      ensures ports == old(ports) + Mode13hWrites(misc, cr11)
    {
      ports := ports + [Outb(MISC_WRITE, WithColour(misc)), Outb(CRT_ADDR, CRT_PROTECT), Outb(CRT_DATA, Unprotected(cr11))];
      WriteRegisters(SEQ_ADDR, SEQ_DATA, SEQ_REGS);
      WriteRegisters(CRT_ADDR, CRT_DATA, CRT_REGS);
      ports := ports + [Outb(CRT_ADDR, CRT_PROTECT), Outb(CRT_DATA, cr11)];
      WriteRegisters(GC_ADDR, GC_DATA, GFX_REGS);
    }

    /** One of the register loops of vga_set_mode_13h. */
    method WriteRegisters(addr: Word16, data: Word16, regs: seq<Byte>)
      requires |regs| <= U8
      modifies this
      ensures ports == old(ports) + Indexed(addr, data, regs)
    {
      var i := 0;
      while i < |regs|
        invariant i <= |regs|
        invariant ports == old(ports) + Indexed(addr, data, regs[..i])
      {
        ports := ports + [Outb(addr, i), Outb(data, regs[i])];
        assert regs[..i + 1][..i] == regs[..i];
        i := i + 1;
      }
      assert regs[..i] == regs;
    }

    /** vga_clear_screen: every byte of the frame buffer becomes `color`. */
    method ClearScreen(color: Byte)
      requires Valid()
      modifies mem
      ensures forall i :: 0 <= i < mem.Length ==> mem[i] == color
    {
      var i := 0;
      while i < VGA_SIZE
        invariant i <= VGA_SIZE
        invariant forall j :: 0 <= j < i ==> mem[j] == color
      {
        mem[i] := color;
        i := i + 1;
      }
    }

    /** vga_draw_pixel: an on-screen pixel is written and no other byte
        changes; an off-screen one changes nothing. */
    method DrawPixel(x: int, y: int, color: Byte)
      requires Valid()
      modifies mem
      ensures OnScreen(x, y) ==> mem[Offset(x, y)] == color
      ensures forall i :: 0 <= i < mem.Length && !(OnScreen(x, y) && i == Offset(x, y)) ==> mem[i] == old(mem[i])
    {
      if 0 <= x < VGA_WIDTH && 0 <= y < VGA_HEIGHT {
        mem[y * VGA_WIDTH + x] := color;
      }
    }

    /** vga_draw_rect: exactly the on-screen pixels of the rectangle
        become `color`. */
    method DrawRect(x: int, y: int, width: int, height: int, color: Byte)
      requires Valid()
      modifies mem
      ensures forall px, py :: OnScreen(px, py) ==>
                mem[Offset(px, py)] == if InRect(x, y, width, height, px, py) then color else old(mem[Offset(px, py)])
    {
      var xEnd := if x + width > VGA_WIDTH then VGA_WIDTH else x + width;
      var yEnd := if y + height > VGA_HEIGHT then VGA_HEIGHT else y + height;
      var cy := if y < 0 then 0 else y;
      while cy < yEnd
        invariant 0 <= cy && y <= cy
        invariant forall px, py :: OnScreen(px, py) ==>
                    mem[Offset(px, py)] == if InRect(x, y, width, height, px, py) && py < cy then color else old(mem[Offset(px, py)])
      {
        var cx := if x < 0 then 0 else x;
        while cx < xEnd
          invariant 0 <= cx && x <= cx
          invariant forall px, py :: OnScreen(px, py) ==>
                      mem[Offset(px, py)] ==
                        if InRect(x, y, width, height, px, py) && (py < cy || (py == cy && px < cx)) then color
                        else old(mem[Offset(px, py)])
        {
          DrawPixel(cx, cy, color);
          cx := cx + 1;
        }
        cy := cy + 1;
      }
    }

    /** vga_draw_gradient: every pixel gets its gradient colour. */
    method DrawGradient()
      requires Valid()
      modifies mem
      ensures forall px, py :: OnScreen(px, py) ==> mem[Offset(px, py)] == GradientColor(px, py)
    {
      var y := 0;
      while y < VGA_HEIGHT
        invariant 0 <= y <= VGA_HEIGHT
        invariant forall px, py :: OnScreen(px, py) && py < y ==> mem[Offset(px, py)] == GradientColor(px, py)
      {
        var x := 0;
        while x < VGA_WIDTH
          invariant 0 <= x <= VGA_WIDTH
          invariant forall px, py :: OnScreen(px, py) && (py < y || (py == y && px < x)) ==>
                      mem[Offset(px, py)] == GradientColor(px, py)
        {
          GradientFields(x, y);
          var r := (x * 8) / VGA_WIDTH;
          var g := (y * 8) / VGA_HEIGHT;
          var b := (x + y) * 4 / (VGA_WIDTH + VGA_HEIGHT);
          var color: Byte := r * 32 + g * 4 + b;
          DrawPixel(x, y, color);
          x := x + 1;
        }
        y := y + 1;
      }
    }
  }
}
